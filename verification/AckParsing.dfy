/** Reading the acknowledged sequence number out of the server's response, whatever bytes it sent. */
module AckParsing {
  import opened Bytes

  const INT64_MAX := 0x7FFF_FFFF_FFFF_FFFF
  const INT32_LIMIT := 0x8000_0000

  predicate IsDigit(c: char)
  {
    '0' <= c <= '9'
  }

  function Digit(c: char): nat
    requires IsDigit(c)
  {
    c as int - '0' as int
  }

  predicate AllDigits(s: string)
  {
    forall i :: 0 <= i < |s| ==> IsDigit(s[i])
  }

  /** The number a string of digits prints. */
  function DecValue(s: string): nat
    requires AllDigits(s)
    decreases |s|
  {
    if s == [] then 0 else 10 * DecValue(s[..|s| - 1]) + Digit(s[|s| - 1])
  }

  function Decimal(n: nat): (s: string)
    ensures s != [] && AllDigits(s) && (s[0] == '0' ==> n == 0 && |s| == 1)
    decreases n
  {
    (if n < 10 then [] else Decimal(n / 10)) + [DigitChar(n % 10)]
  }

  function DigitChar(d: nat): char
    requires d < 10
    ensures IsDigit(DigitChar(d)) && Digit(DigitChar(d)) == d
  {
    '0' + d as char
  }

  lemma {:induction false} DecimalValue(n: nat)
    ensures DecValue(Decimal(n)) == n
    decreases n
  {
    var s := Decimal(n);
    if n >= 10 {
      DecimalValue(n / 10);
      assert s[..|s| - 1] == Decimal(n / 10);
    } else {
      assert s[..|s| - 1] == [];
    }
  }

  lemma {:induction false} PrefixSmaller(s: string, k: nat)
    requires AllDigits(s) && k <= |s|
    ensures DecValue(s[..k]) <= DecValue(s)
    decreases |s|
  {
    if k == |s| {
      assert s[..k] == s;
    } else {
      PrefixSmaller(s[..|s| - 1], k);
      assert s[..|s| - 1][..k] == s[..k];
    }
  }

  /** The exact value of a non-empty digit string that fits 63 bits; nothing else is accepted. */
  method ParseNonNegativeInt64(s: string, start: nat, end: nat) returns (r: Option<nat>)
    requires end <= |s|
    ensures r.Some? <==> start < end && AllDigits(s[start..end]) && DecValue(s[start..end]) <= INT64_MAX
    ensures r.Some? ==> r.value == DecValue(s[start..end])
  {
    if start >= end { return None; }
    var v: nat := 0;
    for i := start to end
      invariant AllDigits(s[start..i]) && v == DecValue(s[start..i]) && v <= INT64_MAX
    {
      if !IsDigit(s[i]) {
        assert s[start..end][i - start] == s[i];
        return None;
      }
      assert s[start..i + 1] == s[start..i] + [s[i]];
      var digit := Digit(s[i]);
      if v > (INT64_MAX - digit) / 10 {
        if AllDigits(s[start..end]) {
          PrefixSmaller(s[start..end], i + 1 - start);
          SliceOfSlice(s, start, end, 0, i + 1 - start);
        }
        return None;
      }
      v := v * 10 + digit;
    }
    r := Some(v);
  }

  method ParseUint32(s: string, start: nat, end: nat) returns (r: Option<u32>)
    requires end <= |s|
    ensures r.Some? <==> start < end && AllDigits(s[start..end]) && DecValue(s[start..end]) <= U32_MAX
    ensures r.Some? ==> r.value == DecValue(s[start..end])
  {
    var v := ParseNonNegativeInt64(s, start, end);
    if v.None? || v.value > U32_MAX { return None; }
    r := Some(v.value);
  }

  // --- locating the field --------------------------------------------------------------------

  /** The first position at or after `from` where `pat` occurs. */
  function IndexOf(s: string, pat: string, from: nat): (i: Option<nat>)
    ensures i.Some? ==> from <= i.value && i.value + |pat| <= |s| && s[i.value..i.value + |pat|] == pat
    decreases if from <= |s| then |s| - from else 0
  {
    if from + |pat| > |s| then None
    else if s[from..from + |pat|] == pat then Some(from)
    else if from < |s| then IndexOf(s, pat, from + 1)
    else None
  }

  function SkipBlanks(s: string, i: nat): (j: nat)
    requires i <= |s|
    ensures i <= j <= |s|
    decreases |s| - i
  {
    if i < |s| && (s[i] == ' ' || s[i] == '"') then SkipBlanks(s, i + 1) else i
  }

  function SkipDigits(s: string, i: nat): (j: nat)
    requires i <= |s|
    ensures i <= j <= |s| && AllDigits(s[i..j]) && (j < |s| ==> !IsDigit(s[j]))
    decreases |s| - i
  {
    if i < |s| && IsDigit(s[i]) then
      var j := SkipDigits(s, i + 1);
      assert forall k :: i < k < j ==> s[k] == s[i + 1..j][k - (i + 1)];
      j
    else i
  }

  /** The digits after the first occurrence of the key: where the number would be printed. */
  function FieldDigits(s: string, key: string): (d: Option<string>)
    ensures d.Some? ==> AllDigits(d.value)
  {
    var k := IndexOf(s, key, 0);
    if k.None? then None
    else
      var colon := IndexOf(s, ":", k.value);
      if colon.None? then None
      else
        var start := SkipBlanks(s, colon.value + 1);
        Some(s[start..SkipDigits(s, start)])
  }

  /** A 32-bit `long`, as on the device: values from 2^31 on come out negative. */
  function Int32(v: u32): int
  {
    if v < INT32_LIMIT then v else v - 0x1_0000_0000
  }

  /** The integer after `key`, or a negative value when there is none that can be used. */
  method ExtractLong(s: string, key: string) returns (v: int)
    ensures var d := FieldDigits(s, key);
      if d.Some? && d.value != [] && DecValue(d.value) <= U32_MAX then v == Int32(DecValue(d.value)) else v == -1
  {
    hide IndexOf, DecValue, AllDigits;
    var k := IndexOf(s, key, 0);
    if k.None? { return -1; }
    var colon := IndexOf(s, ":", k.value);
    if colon.None? { return -1; }
    var i := colon.value + 1;
    while i < |s| && (s[i] == ' ' || s[i] == '"')
      invariant i <= |s| && SkipBlanks(s, i) == SkipBlanks(s, colon.value + 1)
    {
      i := i + 1;
    }
    var start := i;
    while i < |s| && IsDigit(s[i])
      invariant start <= i <= |s| && SkipDigits(s, i) == SkipDigits(s, start)
    {
      i := i + 1;
    }
    var n := ParseUint32(s, start, i);
    if n.None? { return -1; }
    v := Int32(n.value);
  }

  const ACK_KEY := "\"ack_seq\""

  /** The acknowledgement a response carries, None when it is not one. */
  function AckIn(body: string): (a: Option<u32>)
    ensures a.Some? ==> a.value < INT32_LIMIT
  {
    var d := FieldDigits(body, ACK_KEY);
    if d.Some? && d.value != [] && DecValue(d.value) < INT32_LIMIT then Some(DecValue(d.value)) else None
  }

  /** What the push cycle does with the extracted value: anything negative is no acknowledgement. */
  method ReadAck(body: string) returns (a: Option<u32>)
    ensures a == AckIn(body)
  {
    var v := ExtractLong(body, ACK_KEY);
    if v < 0 { return None; }
    a := Some(v);
  }

  /** The server's response to a push. */
  function ResponseBody(ack: nat, tail: string): string
  {
    "{" + ACK_KEY + ":" + Decimal(ack) + "," + tail
  }

  lemma {:induction false} DigitsEnd(s: string, i: nat, j: nat)
    requires i <= j <= |s| && AllDigits(s[i..j]) && (j == |s| || !IsDigit(s[j]))
    ensures SkipDigits(s, i) == j
    decreases j - i
  {
    if i < j {
      assert s[i..j][0] == s[i];
      assert s[i + 1..j] == s[i..j][1..];
      DigitsEnd(s, i + 1, j);
    }
  }

  lemma {:induction false} FirstIndex(s: string, c: char, from: nat, at: nat)
    requires from <= at < |s| && s[at] == c && forall k :: from <= k < at ==> s[k] != c
    ensures IndexOf(s, [c], from) == Some(at)
    decreases at - from
  {
    assert s[from..from + 1] == [s[from]];
    if from < at {
      FirstIndex(s, c, from + 1, at);
    }
  }

  predicate AllBlanks(s: string)
  {
    forall i :: 0 <= i < |s| ==> s[i] == ' ' || s[i] == '"'
  }

  lemma {:induction false} BlanksEnd(s: string, i: nat, j: nat)
    requires i <= j <= |s| && AllBlanks(s[i..j]) && (j == |s| || (s[j] != ' ' && s[j] != '"'))
    ensures SkipBlanks(s, i) == j
    decreases j - i
  {
    if i < j {
      assert s[i..j][0] == s[i];
      assert s[i + 1..j] == s[i..j][1..];
      BlanksEnd(s, i + 1, j);
    }
  }

  /** The key stands at `at`, a colon right behind it, then blanks and all the digits of a number. */
  predicate Printed(s: string, key: string, at: nat, blanks: string, d: string)
  {
    var colon := at + |key|;
    var start := colon + 1 + |blanks|;
    var stop := start + |d|;
    && stop <= |s| && s[at..colon] == key && s[colon] == ':' && s[colon + 1..start] == blanks
    && s[start..stop] == d && (stop == |s| || !IsDigit(s[stop]))
  }

  /** Wherever the key first stands, the field is the number printed after it, with or without blanks and
      quotes before it, and all of that number. */
  lemma FieldRead(s: string, key: string, at: nat, blanks: string, d: string)
    requires IndexOf(s, key, 0) == Some(at) && Printed(s, key, at, blanks, d)
    requires (forall k :: 0 <= k < |key| ==> key[k] != ':') && AllBlanks(blanks) && d != [] && AllDigits(d)
    ensures FieldDigits(s, key) == Some(d)
  {
    hide AllDigits, AllBlanks, SkipDigits, SkipBlanks, IndexOf, FieldDigits, IsDigit;
    var colon := at + |key|;
    var start := colon + 1 + |blanks|;
    assert forall k :: at <= k < colon ==> s[k] == s[at..colon][k - at];
    FirstIndex(s, ':', at, colon);
    assert s[start] == s[start..start + |d|][0];
    FirstDigit(d);
    DigitIsNoBlank(d[0]);
    BlanksEnd(s, colon + 1, start);
    DigitsEnd(s, start, start + |d|);
    DigitsFound(s, key, at, colon, start);
  }

  lemma DigitIsNoBlank(c: char)
    requires IsDigit(c)
    ensures c != ' ' && c != '"'
  {
  }

  lemma DigitsFound(s: string, key: string, at: nat, colon: nat, start: nat)
    requires IndexOf(s, key, 0) == Some(at) && IndexOf(s, ":", at) == Some(colon)
    requires SkipBlanks(s, colon + 1) == start
    ensures FieldDigits(s, key) == Some(s[start..SkipDigits(s, start)])
  {
    hide IndexOf, SkipDigits;
  }

  /** A field printed right after the opening brace is found, and its digits are all of the number. */
  lemma LocateDigits(s: string, key: string, d: string, tail: string)
    requires s == "{" + key + ":" + d + "," + tail
    requires key != [] && key[0] != '{' && (forall k :: 0 <= k < |key| ==> key[k] != ':')
    requires d != [] && AllDigits(d)
    ensures FieldDigits(s, key) == Some(d)
  {
    hide AllDigits, SkipDigits;
    var n := |key|;
    FieldPositions(s, key, d, tail);
    assert IndexOf(s, key, 0) == Some(1) by {
      assert s[0..n][0] == s[0];
    }
    FirstIndex(s, ':', 1, n + 1);
    assert !IsDigit(s[n + 2 + |d|]);
    DigitsEnd(s, n + 2, n + 2 + |d|);
    FirstDigit(d);
    assert s[n + 2] == d[0];
  }

  lemma FirstDigit(d: string)
    requires d != [] && AllDigits(d)
    ensures IsDigit(d[0])
  {
  }

  lemma FieldPositions(s: string, key: string, d: string, tail: string)
    requires s == "{" + key + ":" + d + "," + tail && (forall k :: 0 <= k < |key| ==> key[k] != ':')
    ensures var n := |key|;
      && |s| > n + 2 + |d| && s[0] == '{' && s[1..n + 1] == key && s[n + 1] == ':'
      && s[n + 2..n + 2 + |d|] == d && s[n + 2 + |d|] == ','
      && (forall k :: 1 <= k < n + 1 ==> s[k] != ':')
  {
    forall k | 1 <= k < |key| + 1
      ensures s[k] != ':'
    {
      assert s[k] == key[k - 1];
    }
  }

  lemma KeySpelled()
    ensures |ACK_KEY| == 9 && ACK_KEY[0] != '{' && forall k :: 0 <= k < 9 ==> ACK_KEY[k] != ':'
  {
  }

  /** The server's acknowledgement arrives exactly as long as it fits 31 bits: the device's `long` turns
      anything larger into no acknowledgement at all. */
  lemma ResponseRead(ack: nat, tail: string)
    ensures AckIn(ResponseBody(ack, tail)) == if ack < INT32_LIMIT then Some(ack) else None
  {
    hide FieldDigits, Decimal;
    KeySpelled();
    LocateDigits(ResponseBody(ack, tail), ACK_KEY, Decimal(ack), tail);
    DecimalValue(ack);
  }
}
