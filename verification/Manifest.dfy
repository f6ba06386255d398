/** The text an update manifest is signed over: eleven fields, one per line. */
module Manifest {
  import opened Bytes
  import opened AckParsing

  /** The device's 32-bit `long`. */
  type long = x: int | -0x8000_0000 <= x < 0x8000_0000

  datatype Fields = Fields(
    hwCompat: string, version: string, securityVersion: long, schemaVersion: long, imageSize: long,
    imageSha256: string, imageUrl: string, channel: string, issuedAt: long, expiresAt: long, manifestId: string)

  /** How `%ld` and Python's `str` print an integer. */
  function IntText(n: int): (s: string)
  {
    if n < 0 then ['-'] + Decimal(-n) else Decimal(n)
  }

  /** It reads back: an optional minus sign and then the digits of the number, without leading zeros. */
  lemma IntTextReads(n: int)
    ensures var s := IntText(n);
      var digits := if n < 0 then s[1..] else s;
      && (n < 0 <==> s[0] == '-') && digits != [] && AllDigits(digits)
      && DecValue(digits) == (if n < 0 then -n else n) && (digits[0] == '0' ==> n == 0)
  {
    var m := if n < 0 then -n else n;
    DecimalValue(m);
    assert n < 0 ==> IntText(n)[1..] == Decimal(m);
  }

  // --- the signer's builder (Python) -----------------------------------------------------------

  /** The fields as text, in the signed order. */
  function Lines(f: Fields): (lines: seq<string>)
    ensures |lines| == 11
  {
    [f.hwCompat, f.version, IntText(f.securityVersion), IntText(f.schemaVersion), IntText(f.imageSize),
     f.imageSha256, f.imageUrl, f.channel, IntText(f.issuedAt), IntText(f.expiresAt), f.manifestId]
  }

  /** `"\n".join(lines)`. */
  function Join(lines: seq<string>): string
    decreases |lines|
  {
    if lines == [] then []
    else if |lines| == 1 then lines[0]
    else lines[0] + ['\n'] + Join(lines[1..])
  }

  function Canonical(f: Fields): string
  {
    Join(Lines(f))
  }

  // --- the device's builder (C++) --------------------------------------------------------------

  datatype Arg = Str(s: string) | Long(n: long)

  /** The C library's formatter, for the two conversions used here. */
  function Format(fmt: string, args: seq<Arg>): string
    decreases |fmt|
  {
    if fmt == [] then []
    else if fmt[0] == '%' && |fmt| > 1 && fmt[1] == 's' && args != [] && args[0].Str? then
      args[0].s + Format(fmt[2..], args[1..])
    else if fmt[0] == '%' && |fmt| > 2 && fmt[1] == 'l' && fmt[2] == 'd' && args != [] && args[0].Long? then
      IntText(args[0].n) + Format(fmt[3..], args[1..])
    else [fmt[0]] + Format(fmt[1..], args)
  }

  const FORMAT := FORMAT_HEAD + FORMAT_TAIL
  const FORMAT_HEAD := "%s\n%s\n%ld\n%ld\n%ld\n"
  const FORMAT_TAIL := "%s\n%s\n%s\n%ld\n%ld\n%s"

  function Args(f: Fields): seq<Arg>
  {
    [Str(f.hwCompat), Str(f.version), Long(f.securityVersion), Long(f.schemaVersion), Long(f.imageSize),
     Str(f.imageSha256), Str(f.imageUrl), Str(f.channel), Long(f.issuedAt), Long(f.expiresAt), Str(f.manifestId)]
  }

  /** What `snprintf` does: as much of the text as fits, always terminated, and the length it wanted. */
  method Snprintf(out: array<char>, text: string) returns (n: nat)
    modifies out
    ensures n == |text|
    ensures out.Length > 0 ==>
      out[..Min(n, out.Length - 1)] == text[..Min(n, out.Length - 1)] && out[Min(n, out.Length - 1)] == '\0'
    ensures forall i :: n < i < out.Length ==> out[i] == old(out[i])
  {
    n := |text|;
    if out.Length == 0 { return; }
    var fit := Min(n, out.Length - 1);
    for i := 0 to fit
      invariant out[..i] == text[..i]
      invariant forall k :: fit <= k < out.Length ==> out[k] == old(out[k])
    {
      out[i] := text[i];
      assert out[..i + 1] == out[..i] + [text[i]];
    }
    out[fit] := '\0';
  }

  /** The device's text is the signer's text or nothing: a buffer too small is refused, never cut. */
  method BuildCanonical(f: Fields, out: array<char>) returns (n: int)
    modifies out
    ensures n == (if |Canonical(f)| < out.Length then |Canonical(f)| else -1)
    ensures n >= 0 ==> out[..n] == Canonical(f) && out[n] == '\0'
  {
    FormatsAgree(f);
    var wanted := Snprintf(out, Format(FORMAT, Args(f)));
    if wanted >= out.Length { return -1; }
    n := wanted;
  }

  // --- the two builders agree --------------------------------------------------------------------

  function Text(a: Arg): string
  {
    if a.Str? then a.s else IntText(a.n)
  }

  function Texts(args: seq<Arg>): (t: seq<string>)
    ensures |t| == |args|
  {
    seq(|args|, i requires 0 <= i < |args| => Text(args[i]))
  }

  /** The conversion for `a` stands at position `i` of the format; `width` characters. */
  predicate ConversionAt(fmt: string, i: nat, a: Arg, width: nat)
  {
    && i + width <= |fmt|
    && (a.Str? ==> width == 2 && fmt[i] == '%' && fmt[i + 1] == 's')
    && (a.Long? ==> width == 3 && fmt[i] == '%' && fmt[i + 1] == 'l' && fmt[i + 2] == 'd')
  }

  lemma FormatConversion(fmt: string, i: nat, args: seq<Arg>, j: nat, width: nat)
    requires j < |args| && ConversionAt(fmt, i, args[j], width)
    ensures Format(fmt[i..], args[j..]) == Text(args[j]) + Format(fmt[i + width..], args[j + 1..])
  {
    assert fmt[i..][width..] == fmt[i + width..];
    assert args[j..][1..] == args[j + 1..];
  }

  lemma FormatChar(fmt: string, i: nat, args: seq<Arg>)
    requires i < |fmt| && fmt[i] != '%'
    ensures Format(fmt[i..], args) == [fmt[i]] + Format(fmt[i + 1..], args)
  {
    assert fmt[i..][1..] == fmt[i + 1..];
  }

  /** From position `i` on, the format prints the arguments from `j` on, one per line. */
  predicate PrintsRest(fmt: string, i: nat, args: seq<Arg>, j: nat)
    requires i <= |fmt| && j <= |args|
  {
    Format(fmt[i..], args[j..]) == Join(Texts(args[j..]))
  }

  /** One more line in front. */
  lemma PrintsLine(fmt: string, i: nat, args: seq<Arg>, j: nat, width: nat)
    requires j + 1 < |args| && ConversionAt(fmt, i, args[j], width)
    requires i + width < |fmt| && fmt[i + width] == '\n' && PrintsRest(fmt, i + width + 1, args, j + 1)
    ensures PrintsRest(fmt, i, args, j)
  {
    hide Format;
    FormatConversion(fmt, i, args, j, width);
    FormatChar(fmt, i + width, args[j + 1..]);
    assert Texts(args[j..])[1..] == Texts(args[j + 1..]);
  }

  lemma PrintsLast(fmt: string, i: nat, args: seq<Arg>, j: nat, width: nat)
    requires j + 1 == |args| && ConversionAt(fmt, i, args[j], width) && i + width == |fmt|
    ensures PrintsRest(fmt, i, args, j)
  {
    FormatConversion(fmt, i, args, j, width);
  }

  lemma PrintsAll(fmt: string, args: seq<Arg>)
    requires PrintsRest(fmt, 0, args, 0)
    ensures Format(fmt, args) == Join(Texts(args))
  {
    hide Format, Join, Texts;
    assert fmt[0..] == fmt && args[0..] == args;
  }

  lemma LinesAreTexts(f: Fields)
    ensures Texts(Args(f)) == Lines(f)
  {
    hide IntText;
  }

  predicate StrLineAt(fmt: string, i: nat)
  {
    i + 2 < |fmt| && fmt[i] == '%' && fmt[i + 1] == 's' && fmt[i + 2] == '\n'
  }

  predicate LongLineAt(fmt: string, i: nat)
  {
    i + 3 < |fmt| && fmt[i] == '%' && fmt[i + 1] == 'l' && fmt[i + 2] == 'd' && fmt[i + 3] == '\n'
  }

  /** The conversions of the format string, character by character. */
  predicate ElevenLines(fmt: string)
  {
    && |fmt| == 37 && StrLineAt(fmt, 0) && StrLineAt(fmt, 3) && LongLineAt(fmt, 6) && LongLineAt(fmt, 10)
    && LongLineAt(fmt, 14) && StrLineAt(fmt, 18) && StrLineAt(fmt, 21) && StrLineAt(fmt, 24)
    && LongLineAt(fmt, 27) && LongLineAt(fmt, 31) && fmt[35] == '%' && fmt[36] == 's'
  }

  predicate HeadLines(fmt: string)
  {
    && |fmt| == 18 && StrLineAt(fmt, 0) && StrLineAt(fmt, 3) && LongLineAt(fmt, 6) && LongLineAt(fmt, 10)
    && LongLineAt(fmt, 14)
  }

  predicate TailLines(fmt: string)
  {
    && |fmt| == 19 && StrLineAt(fmt, 0) && StrLineAt(fmt, 3) && StrLineAt(fmt, 6)
    && LongLineAt(fmt, 9) && LongLineAt(fmt, 13) && fmt[17] == '%' && fmt[18] == 's'
  }

  lemma FormatShape(head: string, tail: string)
    requires HeadLines(head) && TailLines(tail)
    ensures ElevenLines(head + tail)
  {
  }

  lemma HeadShape()
    ensures HeadLines(FORMAT_HEAD)
  {
  }

  lemma TailShape()
    ensures TailLines(FORMAT_TAIL)
  {
  }

  lemma {:induction false} PrintsLines(fmt: string, f: Fields)
    requires ElevenLines(fmt)
    ensures Format(fmt, Args(f)) == Join(Texts(Args(f)))
  {
    hide Format, IntText, Join, Texts, PrintsRest;
    var args := Args(f);
    PrintsLast(fmt, 35, args, 10, 2);
    PrintsLine(fmt, 31, args, 9, 3);
    PrintsLine(fmt, 27, args, 8, 3);
    PrintsLine(fmt, 24, args, 7, 2);
    PrintsLine(fmt, 21, args, 6, 2);
    PrintsLine(fmt, 18, args, 5, 2);
    PrintsLine(fmt, 14, args, 4, 3);
    PrintsLine(fmt, 10, args, 3, 3);
    PrintsLine(fmt, 6, args, 2, 3);
    PrintsLine(fmt, 3, args, 1, 2);
    PrintsLine(fmt, 0, args, 0, 2);
    PrintsAll(fmt, args);
  }

  /** The format string prints exactly what the signer joins. */
  lemma FormatsAgree(f: Fields)
    ensures Format(FORMAT, Args(f)) == Canonical(f)
  {
    hide Format, Join, Texts, Lines, Args, ElevenLines, HeadLines, TailLines;
    HeadShape();
    TailShape();
    FormatShape(FORMAT_HEAD, FORMAT_TAIL);
    PrintsLines(FORMAT, f);
    LinesAreTexts(f);
  }

  lemma JoinFrom(lines: seq<string>, k: nat)
    requires k < |lines|
    ensures Join(lines[k..]) == if k + 1 == |lines| then lines[k] else lines[k] + ['\n'] + Join(lines[k + 1..])
  {
    assert lines[k..][0] == lines[k] && lines[k..][1..] == lines[k + 1..];
  }

  /** The text spelled out: hardware, version, security version, schema version, size, hash, address, channel,
      issue, expiry, id. */
  lemma FieldOrder(f: Fields)
    ensures var nl := ['\n'];
      Canonical(f) == f.hwCompat + nl + (f.version + nl + (IntText(f.securityVersion) + nl + (
        IntText(f.schemaVersion) + nl + (IntText(f.imageSize) + nl + (f.imageSha256 + nl + (f.imageUrl + nl + (
        f.channel + nl + (IntText(f.issuedAt) + nl + (IntText(f.expiresAt) + nl + f.manifestId)))))))))
  {
    hide Join, IntText;
    var lines := Lines(f);
    assert lines[0..] == lines;
    JoinFrom(lines, 0);
    JoinFrom(lines, 1);
    JoinFrom(lines, 2);
    JoinFrom(lines, 3);
    JoinFrom(lines, 4);
    JoinFrom(lines, 5);
    JoinFrom(lines, 6);
    JoinFrom(lines, 7);
    JoinFrom(lines, 8);
    JoinFrom(lines, 9);
    JoinFrom(lines, 10);
  }

  // --- unambiguity -------------------------------------------------------------------------------

  function Newlines(s: string): nat
  {
    if s == [] then 0 else (if s[0] == '\n' then 1 else 0) + Newlines(s[1..])
  }

  predicate OneLine(s: string)
  {
    '\n' !in s
  }

  /** No text field holds a newline. */
  predicate OneLiners(f: Fields)
  {
    OneLine(f.hwCompat) && OneLine(f.version) && OneLine(f.imageSha256) && OneLine(f.imageUrl)
    && OneLine(f.channel) && OneLine(f.manifestId)
  }

  lemma {:induction false} NewlinesConcat(s: string, t: string)
    ensures Newlines(s + t) == Newlines(s) + Newlines(t)
    decreases |s|
  {
    if s == [] {
      assert s + t == t;
    } else {
      NewlinesConcat(s[1..], t);
      assert (s + t)[1..] == s[1..] + t;
    }
  }

  lemma {:induction false} NewlinesZero(s: string)
    ensures Newlines(s) == 0 <==> OneLine(s)
  {
    if s != [] {
      NewlinesZero(s[1..]);
      assert s == [s[0]] + s[1..];
    }
  }

  predicate AllOneLine(lines: seq<string>)
  {
    forall i :: 0 <= i < |lines| ==> OneLine(lines[i])
  }

  /** A joined text has at least one newline fewer than lines, and exactly that many when no line has its own. */
  lemma {:induction false} JoinNewlines(lines: seq<string>)
    requires lines != []
    ensures Newlines(Join(lines)) >= |lines| - 1
    ensures Newlines(Join(lines)) == |lines| - 1 <==> AllOneLine(lines)
    decreases |lines|
  {
    NewlinesZero(lines[0]);
    if |lines| > 1 {
      JoinNewlines(lines[1..]);
      NewlinesConcat(lines[0] + ['\n'], Join(lines[1..]));
      NewlinesConcat(lines[0], ['\n']);
      assert Newlines(['\n']) == 1;
      assert lines == [lines[0]] + lines[1..];
    }
  }

  lemma {:induction false} JoinInjective(a: seq<string>, b: seq<string>)
    requires |a| == |b| > 0 && AllOneLine(a) && Join(a) == Join(b)
    ensures a == b
    decreases |a|
  {
    JoinNewlines(a);
    JoinNewlines(b);
    if |a| > 1 {
      FirstLine(a[0], Join(a[1..]), b[0], Join(b[1..]));
      JoinInjective(a[1..], b[1..]);
      assert a == [a[0]] + a[1..] && b == [b[0]] + b[1..];
    }
  }

  lemma FirstLine(a: string, restA: string, b: string, restB: string)
    requires OneLine(a) && OneLine(b) && a + ['\n'] + restA == b + ['\n'] + restB
    ensures a == b && restA == restB
  {
    var s, t := a + ['\n'] + restA, b + ['\n'] + restB;
    assert s[|a|] == '\n' && t[|b|] == '\n';
    assert forall i :: 0 <= i < |a| ==> s[i] == a[i];
    assert forall i :: 0 <= i < |b| ==> t[i] == b[i];
    assert |a| == |b|;
    assert a == s[..|a|] && b == t[..|b|];
    assert restA == s[|a| + 1..] && restB == t[|b| + 1..];
  }

  lemma IntTextOneLine(n: int)
    ensures OneLine(IntText(n))
  {
    hide Decimal;
  }

  lemma IntTextInjective(m: int, n: int)
    requires IntText(m) == IntText(n)
    ensures m == n
  {
    var s := IntText(m);
    var a, b := if m < 0 then -m else m, if n < 0 then -n else n;
    DecimalValue(a);
    DecimalValue(b);
    assert (m < 0) == (s[0] == '-') == (n < 0);
    if m < 0 {
      assert s[1..] == Decimal(a) && s[1..] == Decimal(b);
    }
  }

  /** What was signed is what is read: if the signed manifest has no newline in a text field, no other
      fields at all, not even ones with newlines, give the same text. */
  lemma CanonicalInjective(signed: Fields, seen: Fields)
    requires OneLiners(signed) && Canonical(signed) == Canonical(seen)
    ensures seen == signed
  {
    hide IntText, Join;
    var a, b := Lines(signed), Lines(seen);
    IntTextOneLine(signed.securityVersion);
    IntTextOneLine(signed.schemaVersion);
    IntTextOneLine(signed.imageSize);
    IntTextOneLine(signed.issuedAt);
    IntTextOneLine(signed.expiresAt);
    JoinInjective(a, b);
    assert a[0] == b[0] && a[1] == b[1] && a[5] == b[5] && a[6] == b[6] && a[7] == b[7] && a[10] == b[10];
    IntTextInjective(signed.securityVersion, seen.securityVersion);
    IntTextInjective(signed.schemaVersion, seen.schemaVersion);
    IntTextInjective(signed.imageSize, seen.imageSize);
    IntTextInjective(signed.issuedAt, seen.issuedAt);
    IntTextInjective(signed.expiresAt, seen.expiresAt);
  }

  /** With a newline in the signed fields the text is ambiguous: the boundary between two of the
      adjacent text fields can be moved without changing it. */
  lemma NewlineMovesBoundary(f: Fields, head: string, tail: string)
    requires f.imageSha256 == head + ['\n'] + tail
    ensures var g := f.(imageSha256 := head, imageUrl := tail + ['\n'] + f.imageUrl);
      g != f && Canonical(g) == Canonical(f)
  {
    var g := f.(imageSha256 := head, imageUrl := tail + ['\n'] + f.imageUrl);
    assert |g.imageSha256| < |f.imageSha256|;
    ShiftAt(Lines(f), Lines(g), 5, head, tail);
  }

  lemma {:induction false} ShiftAt(a: seq<string>, b: seq<string>, k: nat, head: string, tail: string)
    requires |a| == |b| && k + 2 < |a|
    requires a[k] == head + ['\n'] + tail && b[k] == head && b[k + 1] == tail + ['\n'] + a[k + 1]
    requires forall i :: 0 <= i < |a| && i != k && i != k + 1 ==> a[i] == b[i]
    ensures Join(a) == Join(b)
    decreases k
  {
    if k > 0 {
      ShiftAt(a[1..], b[1..], k - 1, head, tail);
    } else {
      assert a[1..][1..] == b[1..][1..] by {
        assert a[2..] == b[2..];
        assert a[1..][1..] == a[2..] && b[1..][1..] == b[2..];
      }
      var rest := Join(a[1..][1..]);
      assert Join(a[1..]) == a[1] + ['\n'] + rest && Join(b[1..]) == b[1] + ['\n'] + rest;
      assert Join(a) == head + ['\n'] + tail + ['\n'] + (a[1] + ['\n'] + rest);
      assert Join(b) == head + ['\n'] + (tail + ['\n'] + a[1] + ['\n'] + rest);
    }
  }
}
