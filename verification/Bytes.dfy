/** Machine words and the little-endian, packed record layout used on flash. */
module Bytes {
  type byte = x: int | 0 <= x < 0x100
  type bytes = seq<byte>
  type u16 = x: int | 0 <= x < 0x1_0000
  type u32 = x: int | 0 <= x < 0x1_0000_0000
  type u64 = x: int | 0 <= x < 0x1_0000_0000_0000_0000

  datatype Option<+T> = None | Some(value: T)

  const U32_MAX := 0xFFFF_FFFF

  /** `x + 1` in unsigned 32-bit arithmetic. */
  function Inc32(x: u32): (y: u32)
    ensures x < U32_MAX ==> y == x + 1
    ensures x == U32_MAX ==> y == 0
  {
    (x + 1) % 0x1_0000_0000
  }

  function Min(a: nat, b: nat): (m: nat)
    ensures m <= a && m <= b && (m == a || m == b)
  {
    if a <= b then a else b
  }

  /** The first `n` elements, or everything when there are fewer. */
  function Take<T>(s: seq<T>, n: nat): (t: seq<T>)
    ensures |t| == Min(|s|, n) && t <= s
  {
    if n < |s| then s[..n] else s
  }

  /** A piece of a piece. */
  lemma SliceOfSlice<T>(s: seq<T>, a: nat, b: nat, i: nat, j: nat)
    requires a <= b <= |s| && i <= j <= b - a
    ensures s[a..b][i..j] == s[a + i..a + j]
  {
    var x, y := s[a..b][i..j], s[a + i..a + j];
    assert |x| == |y| && forall k :: 0 <= k < |x| ==> x[k] == s[a..b][i + k] && y[k] == s[a + i + k];
  }

  function Pow256(n: nat): (p: nat)
    ensures p > 0
  {
    if n == 0 then 1 else 256 * Pow256(n - 1)
  }

  /** `v` in `n` little-endian bytes. */
  function LE(v: nat, n: nat): (b: bytes)
    ensures |b| == n
  {
    if n == 0 then [] else [v % 256] + LE(v / 256, n - 1)
  }

  function UnLE(b: bytes): (v: nat)
  {
    if b == [] then 0 else b[0] + 256 * UnLE(b[1..])
  }

  lemma {:induction false} LERoundTrip(v: nat, n: nat)
    requires v < Pow256(n)
    ensures UnLE(LE(v, n)) == v
  {
    if n > 0 {
      LERoundTrip(v / 256, n - 1);
      assert LE(v, n)[1..] == LE(v / 256, n - 1);
    }
  }

  /** The lowest byte comes first. */
  lemma {:induction false} LEByte(v: nat, n: nat, i: nat)
    requires i < n
    ensures LE(v, n)[i] == v / Pow256(i) % 256
  {
    if i > 0 {
      LEByte(v / 256, n - 1, i - 1);
      DivideTwice(v, Pow256(i - 1));
    }
  }

  lemma DivideTwice(v: nat, p: nat)
    requires p > 0
    ensures v / 256 / p == v / (256 * p)
  {
    var a, b, r := v / 256 / p, v / 256 % p, v % 256;
    assert v == a * (256 * p) + (256 * b + r) && 0 <= 256 * b + r < 256 * p by {
      assert v / 256 == a * p + b;
    }
    Quotient(v, 256 * p, a, 256 * b + r);
  }

  lemma Quotient(v: nat, d: nat, a: nat, rest: nat)
    requires d > 0 && v == a * d + rest && rest < d
    ensures v / d == a
  {
    var q := v / d;
    assert v == q * d + v % d;
    MultiplesApart(q, a, d);
    MultiplesApart(a, q, d);
  }

  lemma {:induction false} MultiplesApart(a: nat, b: nat, d: nat)
    ensures a < b ==> a * d + d <= b * d
    decreases b
  {
    if a + 1 < b {
      MultiplesApart(a, b - 1, d);
    }
  }

  lemma {:induction false} UnLEBound(b: bytes)
    ensures UnLE(b) < Pow256(|b|)
  {
    if b != [] {
      UnLEBound(b[1..]);
    }
  }

  lemma {:induction false} UnLEInjective(b: bytes, c: bytes)
    requires |b| == |c| && UnLE(b) == UnLE(c)
    ensures b == c
  {
    if b != [] {
      assert b[0] == UnLE(b) % 256 && c[0] == UnLE(c) % 256;
      UnLEInjective(b[1..], c[1..]);
      assert b == [b[0]] + b[1..] && c == [c[0]] + c[1..];
    }
  }

  lemma WordSizes()
    ensures Pow256(2) == 0x1_0000
    ensures Pow256(4) == 0x1_0000_0000
    ensures Pow256(8) == 0x1_0000_0000_0000_0000
  {
    assert Pow256(1) == 256;
    assert Pow256(3) == 256 * Pow256(2);
    assert Pow256(5) == 256 * Pow256(4);
    assert Pow256(6) == 256 * Pow256(5);
    assert Pow256(7) == 256 * Pow256(6);
  }

  // --- packed structs: a layout is the list of field widths -------------------

  function Size(layout: seq<nat>): (n: nat)
  {
    if layout == [] then 0 else layout[0] + Size(layout[1..])
  }

  predicate Fits(layout: seq<nat>, vals: seq<nat>)
  {
    |layout| == |vals| && forall i :: 0 <= i < |vals| ==> vals[i] < Pow256(layout[i])
  }

  function Pack(layout: seq<nat>, vals: seq<nat>): (b: bytes)
    requires |layout| == |vals|
    ensures |b| == Size(layout)
  {
    if layout == [] then [] else LE(vals[0], layout[0]) + Pack(layout[1..], vals[1..])
  }

  function Unpack(layout: seq<nat>, b: bytes): (vals: seq<nat>)
    requires |b| == Size(layout)
    ensures Fits(layout, vals)
  {
    if layout == [] then []
    else
      UnLEBound(b[..layout[0]]);
      [UnLE(b[..layout[0]])] + Unpack(layout[1..], b[layout[0]..])
  }

  lemma {:induction false} PackRoundTrip(layout: seq<nat>, vals: seq<nat>)
    requires Fits(layout, vals)
    ensures Unpack(layout, Pack(layout, vals)) == vals
  {
    if layout != [] {
      var head, tail := LE(vals[0], layout[0]), Pack(layout[1..], vals[1..]);
      LERoundTrip(vals[0], layout[0]);
      PackRoundTrip(layout[1..], vals[1..]);
      assert (head + tail)[..layout[0]] == head && (head + tail)[layout[0]..] == tail;
    }
  }

  // --- fields of an unpacked struct ----------------------------------------------

  function U16At(layout: seq<nat>, vals: seq<nat>, i: nat): u16
    requires Fits(layout, vals) && i < |vals| && layout[i] == 2
  {
    WordSizes();
    vals[i]
  }

  function U32At(layout: seq<nat>, vals: seq<nat>, i: nat): u32
    requires Fits(layout, vals) && i < |vals| && layout[i] == 4
  {
    WordSizes();
    vals[i]
  }

  function U64At(layout: seq<nat>, vals: seq<nat>, i: nat): u64
    requires Fits(layout, vals) && i < |vals| && layout[i] == 8
  {
    WordSizes();
    vals[i]
  }
}
