/** Segment file names and how boot reads the segment number back from a directory listing. */
module SegmentNames {
  import opened Bytes
  import opened Records
  import opened QueueSpec
  import opened QueueLog
  import opened QueueInvariant
  import opened AckParsing

  function Zeros(n: nat): (z: string)
    ensures |z| == n && forall i :: 0 <= i < n ==> z[i] == '0'
  {
    if n == 0 then [] else Zeros(n - 1) + ['0']
  }

  /** At least six decimal digits, padded with zeros. */
  function SixDigits(id: nat): (d: string)
    ensures AllDigits(d)
  {
    var d := Decimal(id);
    if |d| < 6 then Zeros(6 - |d|) + d else d
  }

  const PREFIX := "/queue/seg_"

  function SegmentPath(id: nat): string
  {
    PREFIX + SixDigits(id) + ".bin"
  }

  /** The six characters after "seg_", if they are digits. */
  function SegmentId(name: string): Option<nat>
  {
    var i := IndexOf(name, "seg_", 0);
    if i.None? || i.value + 10 > |name| then None
    else
      var six := name[i.value + 4..i.value + 10];
      if AllDigits(six) then Some(DecValue(six)) else None
  }

  method ParseSegmentId(name: string) returns (id: Option<nat>)
    ensures id == SegmentId(name)
  {
    var i := IndexOf(name, "seg_", 0);
    if i.None? { return None; }
    var at := i.value + 4;
    if at + 6 > |name| { return None; }
    ghost var six := name[at..at + 6];
    var v := 0;
    for k := 0 to 6
      invariant AllDigits(six[..k]) && v == DecValue(six[..k])
    {
      var c := name[at + k];
      assert six[k] == c;
      if !IsDigit(c) { return None; }
      assert six[..k + 1] == six[..k] + [c];
      v := v * 10 + Digit(c);
    }
    assert six[..6] == six;
    id := Some(v);
  }

  // --- lengths ---------------------------------------------------------------------------

  function Pow10(k: nat): (p: nat)
    ensures p > 0
  {
    if k == 0 then 1 else 10 * Pow10(k - 1)
  }

  lemma {:induction false} DecimalLength(n: nat, k: nat)
    requires k > 0
    ensures |Decimal(n)| <= k <==> n < Pow10(k)
    decreases k
  {
    if k > 1 {
      DecimalLength(n / 10, k - 1);
    } else {
      assert Pow10(1) == 10;
    }
  }

  lemma {:induction false} ValueBound(s: string)
    requires AllDigits(s)
    ensures DecValue(s) < Pow10(|s|)
    decreases |s|
  {
    if s != [] {
      ValueBound(s[..|s| - 1]);
    }
  }

  lemma {:induction false} PaddingKeepsValue(n: nat, d: string)
    requires AllDigits(d)
    ensures AllDigits(Zeros(n) + d) && DecValue(Zeros(n) + d) == DecValue(d)
    decreases n + |d|
  {
    var s := Zeros(n) + d;
    if d != [] {
      PaddingKeepsValue(n, d[..|d| - 1]);
      assert s[..|s| - 1] == Zeros(n) + d[..|d| - 1];
    } else if n > 0 {
      PaddingKeepsValue(n - 1, []);
      assert s[..|s| - 1] == Zeros(n - 1) + [];
    }
  }

  lemma Million()
    ensures Pow10(6) == 1_000_000
  {
    assert Pow10(3) == 1000 && Pow10(6) == 1000 * Pow10(3);
  }

  // --- round trip --------------------------------------------------------------------------

  lemma {:induction false} FirstMatch(s: string, pat: string, from: nat, at: nat)
    requires pat != [] && from <= at && at + |pat| <= |s| && s[at..at + |pat|] == pat
    requires forall k :: from <= k < at ==> s[k] != pat[0]
    ensures IndexOf(s, pat, from) == Some(at)
    decreases at - from
  {
    if from < at {
      assert s[from..from + |pat|][0] == s[from];
      FirstMatch(s, pat, from + 1, at);
    }
  }

  lemma NamedDigits(d: string)
    requires |d| >= 6 && AllDigits(d)
    ensures SegmentId(PREFIX + d + ".bin") == Some(DecValue(d[..6]))
  {
    var name := PREFIX + d + ".bin";
    assert |PREFIX| == 11 && forall k :: 0 <= k < 7 ==> PREFIX[k] != 's';
    assert name[7..11] == "seg_" by { assert name[7..11] == PREFIX[7..11]; }
    assert forall k :: 0 <= k < 7 ==> name[k] == PREFIX[k];
    FirstMatch(name, "seg_", 0, 7);
    assert name[11..17] == d[..6];
  }

  /** A segment's number is read back from its name exactly for numbers of at most six digits. */
  lemma NameRoundTrip(id: nat)
    ensures SegmentId(SegmentPath(id)) == Some(id) <==> id < 1_000_000
  {
    hide SegmentId, Decimal, DecValue, Zeros;
    var d := SixDigits(id);
    Million();
    DecimalLength(id, 6);
    DecimalValue(id);
    NamedDigits(d);
    if id < 1_000_000 {
      PaddingKeepsValue(6 - |Decimal(id)|, Decimal(id));
      assert Zeros(0) + Decimal(id) == Decimal(id);
      assert d[..6] == d;
    } else {
      ValueBound(d[..6]);
    }
  }

  /** No device ever needs more: sequence numbers run out first, so boot reads every segment's own number. */
  lemma ReachableNamesReadBack(q: Dev, log: seq<Row>, s: nat)
    requires DiskInv(q, log) && s in q.segs
    ensures SegmentId(SegmentPath(s)) == Some(s)
  {
    hide CursorOk, ClosedSegment, ActiveSegment, Ascending, SegmentId;
    FrontierSmall(log, CpPos(DurableCp(q).body));
    NameRoundTrip(s);
  }

  /** Different segments have different names. */
  lemma NamesDiffer(a: nat, b: nat)
    requires SegmentPath(a) == SegmentPath(b)
    ensures a == b
  {
    var x, y := SegmentPath(a), SegmentPath(b);
    var da, db := SixDigits(a), SixDigits(b);
    assert |da| == |x| - |PREFIX| - 4 && |db| == |y| - |PREFIX| - 4;
    assert da == x[|PREFIX|..|PREFIX| + |da|] && db == y[|PREFIX|..|PREFIX| + |db|];
    SixDigitsValue(a);
    SixDigitsValue(b);
  }

  lemma SixDigitsValue(id: nat)
    ensures DecValue(SixDigits(id)) == id
  {
    hide DecValue, Decimal, Zeros;
    DecimalValue(id);
    if |Decimal(id)| < 6 {
      PaddingKeepsValue(6 - |Decimal(id)|, Decimal(id));
    }
  }
}
