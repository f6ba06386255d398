/** MQTT framing: publishing a message into the shared buffer, and reading a packet back out of it. */
module Mqtt {
  import opened Bytes

  const MAX_HEADER := 5

  /** Topics are C strings. */
  type Topic = s: bytes | 0 !in s

  // --- the wire format (MQTT 3.1.1, sections 2.2.3 and 3.3) --------------------------------------

  /** The remaining length: seven bits per byte, least significant first, the top bit meaning "more". */
  function EncodeLength(n: nat): (e: bytes)
    ensures e != []
  {
    if n < 128 then [n] else [n % 128 + 128] + EncodeLength(n / 128)
  }

  datatype Length = Length(value: nat, width: nat) | Malformed | Cut

  /** Reads a remaining length of at most `most` bytes. */
  function DecodeLength(b: bytes, most: nat): (r: Length)
    ensures r.Length? ==> 1 <= r.width <= most && r.width <= |b|
    decreases most
  {
    if most == 0 then Malformed
    else if b == [] then Cut
    else if b[0] < 128 then Length(b[0], 1)
    else
      match DecodeLength(b[1..], most - 1)
      case Length(value, width) => Length(b[0] - 128 + 128 * value, width + 1)
      case other => other
  }

  function Pow128(n: nat): (p: nat)
    ensures p > 0
  {
    if n == 0 then 1 else 128 * Pow128(n - 1)
  }

  /** Decoding undoes encoding for every length the format can carry, whatever follows. */
  lemma {:induction false} DecodeEncode(n: nat, most: nat, rest: bytes)
    requires most > 0 && n < Pow128(most)
    ensures DecodeLength(EncodeLength(n) + rest, most) == Length(n, |EncodeLength(n)|)
    ensures |EncodeLength(n)| <= most
    decreases most
  {
    var e := EncodeLength(n);
    if n >= 128 {
      DecodeEncode(n / 128, most - 1, rest);
      assert (e + rest)[1..] == EncodeLength(n / 128) + rest;
    }
  }

  /** The example of section 2.2.3: 321 is 65 + 2 * 128. */
  lemma LeastSignificantFirst()
    ensures EncodeLength(321) == [65 + 128, 2]
  {
    assert EncodeLength(2) == [2];
  }

  /** Encoding undoes decoding exactly on lengths written without a superfluous last byte. */
  lemma {:induction false} EncodeDecode(b: bytes, most: nat)
    requires DecodeLength(b, most).Length?
    ensures var r := DecodeLength(b, most);
      && r.value < Pow128(r.width)
      && (EncodeLength(r.value) == b[..r.width] <==> r.width == 1 || b[r.width - 1] != 0)
      && (r.width > 1 && b[r.width - 1] != 0 ==> r.value >= 128)
    decreases most
  {
    var r := DecodeLength(b, most);
    if b[0] < 128 {
      assert b[..1] == [b[0]];
    } else {
      EncodeDecode(b[1..], most - 1);
      var rest := DecodeLength(b[1..], most - 1);
      assert b[1..][rest.width - 1] == b[r.width - 1];
      assert b[..r.width] == [b[0]] + b[1..][..rest.width];
      if r.value >= 128 {
        assert r.value % 128 == b[0] - 128 && r.value / 128 == rest.value;
        assert EncodeLength(r.value)[1..] == EncodeLength(rest.value);
        assert b[..r.width][1..] == b[1..][..rest.width];
      } else {
        assert rest.value == 0;
        assert EncodeLength(0) == [0];
      }
    }
  }

  /** A 16-bit length, high byte first. */
  function BE16(n: u16): (b: bytes)
    ensures |b| == 2 && 256 * (b[0] as int) + b[1] == n
  {
    [n / 256, n % 256]
  }

  function Body(topic: bytes, payload: bytes): bytes
    requires |topic| < 0x1_0000
  {
    BE16(|topic|) + topic + payload
  }

  /** Section 3.3.1: the packet type in the upper half, then duplicate flag and quality of service, all zero
      here, and the retain flag in the lowest bit. */
  function PublishHeader(retained: bool): (h: byte)
    ensures h / 16 == 3 && h / 2 % 8 == 0 && (h % 2 == 1 <==> retained)
  {
    if retained then 0x31 else 0x30
  }

  /** A PUBLISH packet of quality of service 0. */
  function Frame(topic: bytes, payload: bytes, retained: bool): bytes
    requires |topic| < 0x1_0000
  {
    [PublishHeader(retained)] + EncodeLength(2 + |topic| + |payload|) + Body(topic, payload)
  }

  /** What the buffer can hold with the largest header in front. */
  predicate FitsBuffer(bufferSize: nat, topic: bytes, payload: bytes)
  {
    MAX_HEADER + 2 + |topic| + |payload| <= bufferSize
  }

  /** The 32-bit sum of the sizes wraps around to something that seems to fit. */
  predicate SumWraps(bufferSize: nat, topic: bytes, payload: bytes)
  {
    0x1_0000_0000 <= MAX_HEADER + 2 + Min(|topic|, bufferSize) + |payload| <= 0x1_0000_0000 + bufferSize
  }

  // --- what the reader makes of its input ------------------------------------------------------

  predicate IsPublish(header: byte)
  {
    header / 16 == 3
  }

  predicate IsQos1(header: byte)
  {
    header / 2 % 4 == 1
  }

  /** How many bytes a packet takes up. The two topic-length bytes of a PUBLISH are read unconditionally. */
  datatype Packet = Packet(width: nat, total: nat) | Undecodable(consumed: nat)

  function Parse(input: bytes): (p: Packet)
    ensures p.Packet? ==> 1 <= p.width <= 4 && 1 + p.width <= p.total && input != []
  {
    if input == [] then Undecodable(0)
    else
      match DecodeLength(input[1..], 4)
      case Length(n, width) => Packet(width, 1 + width + (if IsPublish(input[0]) && n < 2 then 2 else n))
      case Malformed => Undecodable(5)
      case Cut => Undecodable(|input|)
  }

  /** How many bytes of the length field are read. */
  function FieldBytes(b: bytes, most: nat): (n: nat)
    ensures n <= most && n <= |b|
    decreases most
  {
    if most == 0 || b == [] then 0 else if b[0] < 128 then 1 else 1 + FieldBytes(b[1..], most - 1)
  }

  /** How many bytes are stored without a look at the buffer's size: the fixed header and, of a PUBLISH, the
      topic's length. */
  function Unguarded(input: bytes): nat
  {
    if input == [] then 0
    else
      var header := 1 + FieldBytes(input[1..], 4);
      if Parse(input).Packet? && IsPublish(input[0]) then header + Min(2, |input| - header) else header
  }

  /** A packet handed on: `len` bytes of the buffer, the width of its length field, bytes consumed. Or the
      reader leaves its buffer. */
  datatype ReadResult = ReadResult(len: nat, width: nat, consumed: nat) | Outside

  /** A packet is handed on when it arrives whole and fits the buffer; one too large is skipped whole. */
  function ReadSpec(input: bytes, bufferSize: nat): ReadResult
  {
    if Unguarded(input) > bufferSize then Outside
    else
      match Parse(input)
      case Undecodable(consumed) => ReadResult(0, 0, consumed)
      case Packet(width, total) =>
        if |input| < total then ReadResult(0, width, |input|)
        else ReadResult(if total <= bufferSize then total else 0, width, total)
  }

  /** One turn of the event loop: what it handled and how far the input was read, or that it leaves its
      buffer: the header does not fit it, or the topic's length points past the packet. */
  datatype Turn = Handled(message: Option<Message>, consumed: nat) | Astray

  function TurnSpec(input: bytes, bufferSize: nat): Turn
  {
    var r := ReadSpec(input, bufferSize);
    if r.Outside? then Astray
    else if r.len == 0 || r.len > |input| then Handled(None, r.consumed)
    else if !WellFormed(input[..r.len], r.width) then Astray
    else Handled(Deliver(input[..r.len], r.width), r.consumed)
  }

  datatype Message = Message(topic: bytes, payload: bytes, reply: bytes)

  /** What a C string shows of some bytes. */
  function UpToNul(s: bytes): (t: bytes)
    ensures t <= s && 0 !in t && (t == s || s[|t|] == 0)
  {
    if s == [] || s[0] == 0 then [] else [s[0]] + UpToNul(s[1..])
  }

  function TopicLength(input: bytes, width: nat): nat
    requires width + 2 < |input|
  {
    256 * (input[width + 1] as int) + input[width + 2]
  }

  /** The topic, and the message id if there is one, lie inside the packet, as section 3.3 requires of a sender. */
  predicate WellFormed(packet: bytes, width: nat)
    requires packet != []
  {
    IsPublish(packet[0]) ==>
      && width + 2 < |packet|
      && width + 3 + TopicLength(packet, width) + (if IsQos1(packet[0]) then 2 else 0) <= |packet|
  }

  /** The message in a whole packet. */
  function Deliver(packet: bytes, width: nat): Option<Message>
    requires packet != [] && WellFormed(packet, width)
  {
    if !IsPublish(packet[0]) then None
    else
      var tl := TopicLength(packet, width);
      var topic := UpToNul(packet[width + 3..width + 3 + tl]);
      var after := packet[width + 3 + tl..];
      if IsQos1(packet[0]) then Some(Message(topic, after[2..], [0x40, 2, after[0], after[1]]))
      else Some(Message(topic, after, []))
  }

  // --- the client ------------------------------------------------------------------------------

  /** The remaining length, digit by digit. */
  method LengthDigits(length: u16) returns (lenBuf: bytes)
    ensures lenBuf == EncodeLength(length) && 1 <= |lenBuf| <= 3
  {
    lenBuf := [];
    var len: nat := length;
    while true
      invariant lenBuf + EncodeLength(len) == EncodeLength(length)
      invariant |lenBuf| <= 2 && (|lenBuf| == 1 ==> len < 512) && (|lenBuf| == 2 ==> len < 4)
      decreases len
    {
      ghost var was := len;
      var digit := len % 128;
      len := len / 128;
      if len > 0 { digit := digit + 128; }
      lenBuf := lenBuf + [digit];
      if len == 0 { break; }
      assert EncodeLength(was) == [digit] + EncodeLength(len);
    }
  }

  class Client {
    const buffer: array<byte>

    constructor (bufferSize: u16)
      ensures buffer.Length == bufferSize && fresh(buffer)
    {
      buffer := new byte[bufferSize](_ => 0);
    }

    /** Writes the length and the bytes of a string. */
    method WriteString(s: Topic, pos: nat) returns (end: nat)
      requires |s| < 0x1_0000 && pos + 2 + |s| <= buffer.Length
      modifies buffer
      ensures end == pos + 2 + |s|
      ensures buffer[pos..end] == BE16(|s|) + s
      ensures buffer[..pos] == old(buffer[..pos]) && buffer[end..] == old(buffer[end..])
    {
      end := pos + 2;
      for i := 0 to |s|
        invariant end == pos + 2 + i
        invariant forall k :: 0 <= k < i ==> buffer[pos + 2 + k] == s[k]
        invariant forall k :: 0 <= k < buffer.Length && !(pos + 2 <= k < end) ==> buffer[k] == old(buffer[k])
      {
        buffer[end] := s[i];
        end := end + 1;
      }
      buffer[pos] := |s| / 256;
      buffer[pos + 1] := |s| % 256;
    }

    /** Puts the fixed header right in front of the body that starts at `MAX_HEADER`. */
    method BuildHeader(header: byte, length: u16) returns (hlen: nat)
      requires buffer.Length >= MAX_HEADER
      modifies buffer
      ensures hlen == 1 + |EncodeLength(length)| && 2 <= hlen <= 4
      ensures buffer[MAX_HEADER - hlen..MAX_HEADER] == [header] + EncodeLength(length)
      ensures forall k :: MAX_HEADER <= k < buffer.Length ==> buffer[k] == old(buffer[k])
    {
      hide EncodeLength;
      var lenBuf := LengthDigits(length);
      var llen := |lenBuf|;
      buffer[4 - llen] := header;
      for i := 0 to llen
        invariant buffer[4 - llen] == header
        invariant forall k :: 0 <= k < i ==> buffer[MAX_HEADER - llen + k] == lenBuf[k]
        invariant forall k :: MAX_HEADER <= k < buffer.Length ==> buffer[k] == old(buffer[k])
      {
        buffer[MAX_HEADER - llen + i] := lenBuf[i];
      }
      hlen := llen + 1;
      ghost var written := buffer[MAX_HEADER - hlen..MAX_HEADER];
      assert forall k :: 0 < k < hlen ==> written[k] == lenBuf[k - 1];
      assert written == [header] + lenBuf;
    }

    /** Puts topic and payload where the body goes. */
    method WriteBody(topic: Topic, payload: bytes) returns (end: nat)
      requires |topic| < 0x1_0000 && FitsBuffer(buffer.Length, topic, payload)
      modifies buffer
      ensures end == MAX_HEADER + 2 + |topic| + |payload| && buffer[MAX_HEADER..end] == Body(topic, payload)
    {
      end := WriteString(topic, MAX_HEADER);
      ghost var start := end;
      for i := 0 to |payload|
        invariant end == start + i
        invariant buffer[MAX_HEADER..start] == BE16(|topic|) + topic
        invariant buffer[start..end] == payload[..i]
      {
        buffer[end] := payload[i];
        end := end + 1;
        assert buffer[start..end] == buffer[start..end - 1] + [payload[i]];
      }
      assert buffer[MAX_HEADER..end] == buffer[MAX_HEADER..start] + buffer[start..end];
    }

    /** Puts the header in front of a body of `length` bytes and hands both to the connection. */
    method Write(header: byte, length: u16, accepted: nat) returns (ok: bool, sent: bytes)
      requires MAX_HEADER + length <= buffer.Length
      modifies buffer
      ensures sent == [header] + EncodeLength(length) + old(buffer[MAX_HEADER..MAX_HEADER + length])
      ensures ok == (accepted == |sent|)
    {
      hide EncodeLength;
      var hlen := BuildHeader(header, length);
      sent := buffer[MAX_HEADER - hlen..MAX_HEADER + length];
      assert sent == buffer[MAX_HEADER - hlen..MAX_HEADER] + buffer[MAX_HEADER..MAX_HEADER + length];
      assert buffer[MAX_HEADER..MAX_HEADER + length] == old(buffer[MAX_HEADER..MAX_HEADER + length]);
      ok := accepted == |sent|;
    }

    /** Sends one message. `accepted` is how many bytes the connection takes. The size check adds 32-bit
        values; `astray` says that the sum wrapped and the message would be written past the buffer. */
    method Publish(connected: bool, topic: Topic, payload: bytes, retained: bool, accepted: nat)
      returns (ok: bool, sent: bytes, astray: bool)
      requires buffer.Length < 0x1_0000 && |payload| < 0x1_0000_0000
      modifies buffer
      ensures connected && FitsBuffer(buffer.Length, topic, payload) ==>
        sent == Frame(topic, payload, retained) && ok == (accepted == |sent|)
      ensures connected && FitsBuffer(buffer.Length, topic, payload) ==>
        sent != [] && sent[0] / 16 == 3 && sent[0] / 2 % 8 == 0 && (sent[0] % 2 == 1 <==> retained)
      ensures !(connected && FitsBuffer(buffer.Length, topic, payload)) ==> !ok && sent == []
      ensures astray <==> connected && SumWraps(buffer.Length, topic, payload)
    {
      hide EncodeLength, PublishHeader, Body;
      if !connected { return false, [], false; }
      var needed := (MAX_HEADER + 2 + Min(|topic|, buffer.Length) + |payload|) % 0x1_0000_0000;
      if buffer.Length < needed { return false, [], false; }
      if buffer.Length < MAX_HEADER + 2 + |topic| + |payload| { return false, [], true; }
      var length := WriteBody(topic, payload);
      ok, sent := Write(PublishHeader(retained), length - MAX_HEADER, accepted);
      astray := false;
    }

    /** The length field: its bytes go into the buffer, five without an end mean a broken peer. */
    method ReadLength(input: bytes) returns (r: Length, outside: bool)
      requires buffer.Length >= 1 && input != [] && buffer[..1] == input[..1]
      modifies buffer
      ensures outside <==> 1 + FieldBytes(input[1..], 4) > buffer.Length
      ensures !outside ==> r == DecodeLength(input[1..], 4)
      ensures !outside && r.Length? ==>
        && r.width == FieldBytes(input[1..], 4) && 1 + r.width <= buffer.Length
        && buffer[..1 + r.width] == input[..1 + r.width]
    {
      hide DecodeLength, Continues, FieldBytes;
      outside := false;
      var len: nat, length: nat, multiplier: nat := 1, 0, 1;
      ContinuesAtOnce(DecodeLength(input[1..], 4));
      while true
        invariant 1 <= len <= 5 && len <= |input| && len <= buffer.Length && buffer[..len] == input[..len]
        invariant !outside && FieldBytes(input[1..], 4) == len - 1 + FieldBytes(input[len..], 5 - len)
        invariant var whole, here := DecodeLength(input[1..], 4), DecodeLength(input[len..], 5 - len);
          Continues(whole, here, length, multiplier, len - 1)
        decreases 5 - len
      {
        ghost var whole, here := DecodeLength(input[1..], 4), DecodeLength(input[len..], 5 - len);
        DecodeStep(input[len..], 5 - len);
        FieldStep(input[len..], 5 - len);
        ContinuesEnds(whole, here, length, multiplier, len - 1);
        if len == 5 { return Malformed, false; }
        if len == |input| { return Cut, false; }
        if len == buffer.Length { return Cut, true; }
        var digit := input[len];
        var low: nat := digit % 128;
        assert input[len..][1..] == input[len + 1..];
        if digit >= 128 {
          ContinuesOn(whole, here, DecodeLength(input[len + 1..], 4 - len), low, length, multiplier, len - 1);
        }
        ReadByte(input, len);
        len := len + 1;
        length := length + low * multiplier;
        if digit < 128 { return Length(length, len - 1), false; }
        multiplier := multiplier * 128;
      }
    }

    /** The next input byte goes to the next place in the buffer. */
    method ReadByte(input: bytes, at: nat)
      requires at < |input| && at < buffer.Length && buffer[..at] == input[..at]
      modifies buffer
      ensures buffer[..at + 1] == input[..at + 1]
    {
      buffer[at] := input[at];
      assert buffer[..at + 1] == buffer[..at] + [input[at]];
    }

    /** Reads one packet into the buffer. Running out of input is a timeout. */
    method ReadPacket(input: bytes) returns (r: ReadResult)
      modifies buffer
      ensures r == ReadSpec(input, buffer.Length)
      ensures r.ReadResult? ==> r.len <= buffer.Length && r.len <= |input| && buffer[..r.len] == input[..r.len]
    {
      hide DecodeLength, FieldBytes;
      if input == [] { return ReadResult(0, 0, 0); }
      if buffer.Length == 0 { return Outside; }
      ReadByte(input, 0);
      var field, outside := ReadLength(input);
      if outside { return Outside; }
      if field.Malformed? { return ReadResult(0, 0, 5); }
      if field.Cut? { return ReadResult(0, 0, |input|); }
      var len := 1 + field.width;
      if !IsPublish(input[0]) {
        r := ReadBody(input, field.width, 0, field.value);
        return;
      }
      if |input| <= len { return ReadResult(0, field.width, |input|); }
      if buffer.Length <= len { return Outside; }
      ReadByte(input, len);
      if |input| <= len + 1 { return ReadResult(0, field.width, |input|); }
      if buffer.Length <= len + 1 { return Outside; }
      ReadByte(input, len + 1);
      r := ReadBody(input, field.width, 2, field.value);
    }

    /** The rest of the packet, `start` bytes of which are already read. */
    method ReadBody(input: bytes, width: nat, start: nat, length: nat) returns (r: ReadResult)
      requires 1 + width + start <= buffer.Length && 1 + width + start <= |input|
      requires buffer[..1 + width + start] == input[..1 + width + start]
      modifies buffer
      ensures var total := 1 + width + (if length < start then start else length);
        r == if |input| < total then ReadResult(0, width, |input|)
             else ReadResult(if total <= buffer.Length then total else 0, width, total)
      ensures r.ReadResult? && r.len <= buffer.Length && r.len <= |input| && buffer[..r.len] == input[..r.len]
    {
      var len, idx, i := 1 + width + start, 1 + width + start, start;
      while i < length
        invariant start <= i && (i <= length || i == start)
        invariant idx == 1 + width + i && idx <= |input| && len == Min(idx, buffer.Length)
        invariant buffer[..len] == input[..len]
        decreases length as int - i
      {
        if idx == |input| { return ReadResult(0, width, |input|); }
        if len < buffer.Length {
          ReadByte(input, len);
          len := len + 1;
        }
        idx := idx + 1;
        i := i + 1;
      }
      if idx > buffer.Length { len := 0; }
      r := ReadResult(len, width, idx);
    }

    /** One turn of the event loop with a packet waiting: the message handed to the callback, the
        acknowledgement written back, and how far the input was read. It leaves its buffer exactly when the
        header does not fit or the topic's length points past the packet. */
    method Loop(input: bytes) returns (turn: Turn)
      modifies buffer
      ensures turn == TurnSpec(input, buffer.Length)
    {
      hide ReadSpec, WellFormed, Deliver;
      var r := ReadPacket(input);
      if r.Outside? { return Astray; }
      if r.len == 0 { return Handled(None, r.consumed); }
      PublishHasTopic(input, buffer.Length);
      var message, astray := HandOver(r.width, r.len, input[..r.len]);
      turn := if astray then Astray else Handled(message, r.consumed);
    }

    /** What the event loop does with a packet in the buffer. */
    method HandOver(llen: nat, len: nat, ghost packet: bytes) returns (message: Option<Message>, astray: bool)
      requires 0 < len == |packet| <= buffer.Length && buffer[..len] == packet
      requires IsPublish(packet[0]) ==> llen + 3 <= len
      modifies buffer
      ensures astray <==> !WellFormed(packet, llen)
      ensures !astray ==> message == Deliver(packet, llen)
    {
      hide UpToNul;
      message, astray := None, false;
      assert buffer[0] == packet[0];
      if !IsPublish(buffer[0]) { return; }
      var qos1 := IsQos1(buffer[0]);
      var tl := 256 * (buffer[llen + 1] as int) + buffer[llen + 2];
      assert buffer[llen + 1] == packet[llen + 1] && buffer[llen + 2] == packet[llen + 2];
      if buffer.Length <= llen + 2 + tl { return None, true; }
      var at := llen + 3 + tl;
      var start := if qos1 then at + 2 else at;
      var topic := TakeTopic(llen, tl);
      if len < start { return None, true; }
      assert packet[llen + 3..at] == old(buffer[llen + 3..at]) by {
        SliceOfSlice(old(buffer[..]), 0, len, llen + 3, at);
      }
      var after := buffer[at..len];
      assert after == packet[at..] by {
        assert forall k :: at <= k < len ==> buffer[k] == packet[k];
      }
      var reply := if qos1 then [0x40, 2, after[0], after[1]] else [];
      message := Some(Message(topic, if qos1 then after[2..] else after, reply));
    }

    /** Moves the topic one byte to the front, ends it with a NUL and reads it as a C string. */
    method TakeTopic(llen: nat, tl: nat) returns (topic: bytes)
      requires llen + 3 + tl <= buffer.Length
      modifies buffer
      ensures topic == UpToNul(old(buffer[llen + 3..llen + 3 + tl]))
      ensures forall k :: llen + 3 + tl <= k < buffer.Length ==> buffer[k] == old(buffer[k])
    {
      hide UpToNul;
      MoveTopic(llen, tl);
      ghost var was, now := old(buffer[llen + 3..llen + 3 + tl]), buffer[llen + 2..];
      assert forall k :: 0 <= k < tl ==> now[k] == was[k];
      assert now[..tl] == was;
      CutAtNul(was, now);
      topic := UpToNul(buffer[llen + 2..]);
    }

    /** Moves the topic one byte to the front and ends it with a NUL. */
    method MoveTopic(llen: nat, tl: nat)
      requires llen + 3 + tl <= buffer.Length
      modifies buffer
      ensures forall k :: llen + 2 <= k < llen + 2 + tl ==> buffer[k] == old(buffer[k + 1])
      ensures buffer[llen + 2 + tl] == 0
      ensures forall k :: 0 <= k < buffer.Length && !(llen + 2 <= k <= llen + 2 + tl) ==> buffer[k] == old(buffer[k])
    {
      for i := 0 to tl
        invariant forall k :: llen + 2 <= k < llen + 2 + i ==> buffer[k] == old(buffer[k + 1])
        invariant forall k :: 0 <= k < buffer.Length && !(llen + 2 <= k < llen + 2 + i) ==> buffer[k] == old(buffer[k])
      {
        buffer[llen + 2 + i] := buffer[llen + 3 + i];
      }
      buffer[llen + 2 + tl] := 0;
    }
  }

  /** A PUBLISH that is handed on holds at least its topic's length. */
  lemma PublishHasTopic(input: bytes, bufferSize: nat)
    requires ReadSpec(input, bufferSize).ReadResult? && ReadSpec(input, bufferSize).len > 0
    ensures input != []
    ensures IsPublish(input[0]) ==> ReadSpec(input, bufferSize).width + 3 <= ReadSpec(input, bufferSize).len
  {
    hide DecodeLength, FieldBytes;
  }

  // --- lemmas for the reader -------------------------------------------------------------------

  /** `whole` is what decoding gives when `done` digits worth `length` came before `rest`. */
  ghost predicate Continues(whole: Length, rest: Length, length: nat, multiplier: nat, done: nat)
  {
    if rest.Length? then whole == Length(length + multiplier * rest.value, done + rest.width) else whole == rest
  }

  lemma FieldStep(b: bytes, most: nat)
    ensures most == 0 || b == [] ==> FieldBytes(b, most) == 0
    ensures most > 0 && b != [] && b[0] < 128 ==> FieldBytes(b, most) == 1
    ensures most > 0 && b != [] && b[0] >= 128 ==> FieldBytes(b, most) == 1 + FieldBytes(b[1..], most - 1)
  {
  }

  lemma DecodeStep(b: bytes, most: nat)
    ensures most == 0 ==> DecodeLength(b, most) == Malformed
    ensures most > 0 && b == [] ==> DecodeLength(b, most) == Cut
    ensures most > 0 && b != [] && b[0] < 128 ==> DecodeLength(b, most) == Length(b[0], 1)
    ensures most > 0 && b != [] && b[0] >= 128 ==>
      Continues(DecodeLength(b, most), DecodeLength(b[1..], most - 1), b[0] - 128, 128, 1)
  {
  }

  lemma ContinuesAtOnce(whole: Length)
    ensures Continues(whole, whole, 0, 1, 0)
  {
  }

  lemma ContinuesEnds(whole: Length, rest: Length, length: nat, multiplier: nat, done: nat)
    requires Continues(whole, rest, length, multiplier, done)
    ensures rest.Length? ==> whole == Length(length + rest.value * multiplier, done + rest.width)
    ensures !rest.Length? ==> whole == rest
  {
  }

  lemma ContinuesOn(whole: Length, here: Length, rest: Length, low: nat, length: nat, multiplier: nat, done: nat)
    requires Continues(whole, here, length, multiplier, done) && Continues(here, rest, low, 128, 1)
    ensures Continues(whole, rest, length + low * multiplier, multiplier * 128, done + 1)
  {
    if rest.Length? {
      assert multiplier * (low + 128 * rest.value) == low * multiplier + multiplier * 128 * rest.value;
    }
  }

  lemma {:induction false} CutAtNul(s: bytes, t: bytes)
    requires |s| < |t| && t[..|s|] == s && t[|s|] == 0
    ensures UpToNul(t) == UpToNul(s)
    decreases |s|
  {
    if s != [] {
      assert t[0] == s[0] && t[1..][..|s| - 1] == s[1..];
      CutAtNul(s[1..], t[1..]);
    }
  }

  lemma {:induction false} NoNul(s: bytes)
    requires 0 !in s
    ensures UpToNul(s) == s
  {
    if s != [] {
      NoNul(s[1..]);
      assert s == [s[0]] + s[1..];
    }
  }

  // --- round trip ------------------------------------------------------------------------------

  /** A frame the format can carry is parsed as one packet, whatever follows on the wire. */
  lemma FrameParses(topic: bytes, payload: bytes, retained: bool, rest: bytes)
    requires |topic| < 0x1_0000 && 2 + |topic| + |payload| < 0x1000_0000
    ensures var frame := Frame(topic, payload, retained);
      Parse(frame + rest) == Packet(|EncodeLength(2 + |topic| + |payload|)|, |frame|)
  {
    hide EncodeLength, DecodeLength;
    var n := 2 + |topic| + |payload|;
    var field, body := EncodeLength(n), Body(topic, payload);
    var frame := Frame(topic, payload, retained);
    Powers();
    DecodeEncode(n, 4, body + rest);
    assert (frame + rest)[1..] == field + (body + rest);
  }

  /** Of a frame, the header and the topic's length are stored unguarded. */
  lemma FrameUnguarded(topic: bytes, payload: bytes, retained: bool, rest: bytes)
    requires |topic| < 0x1_0000 && 2 + |topic| + |payload| < 0x1000_0000
    ensures Unguarded(Frame(topic, payload, retained) + rest) == 3 + |EncodeLength(2 + |topic| + |payload|)|
  {
    hide EncodeLength, DecodeLength, FieldBytes;
    var n := 2 + |topic| + |payload|;
    var field, body := EncodeLength(n), Body(topic, payload);
    var frame := Frame(topic, payload, retained);
    Powers();
    FrameParses(topic, payload, retained, rest);
    FieldOfEncoded(n, 4, body + rest);
    assert (frame + rest)[1..] == field + (body + rest);
  }

  lemma {:induction false} FieldOfEncoded(n: nat, most: nat, rest: bytes)
    requires most > 0 && n < Pow128(most)
    ensures FieldBytes(EncodeLength(n) + rest, most) == |EncodeLength(n)|
    decreases most
  {
    var e := EncodeLength(n);
    if n >= 128 {
      FieldOfEncoded(n / 128, most - 1, rest);
      assert (e + rest)[1..] == EncodeLength(n / 128) + rest;
    }
  }

  /** A whole frame delivers its topic and payload. */
  lemma FrameDelivers(topic: Topic, payload: bytes, retained: bool)
    requires |topic| < 0x1_0000
    ensures var frame := Frame(topic, payload, retained);
      var width := |EncodeLength(2 + |topic| + |payload|)|;
      WellFormed(frame, width) && Deliver(frame, width) == Some(Message(topic, payload, []))
  {
    hide EncodeLength, UpToNul;
    var width := |EncodeLength(2 + |topic| + |payload|)|;
    var frame := Frame(topic, payload, retained);
    assert frame[width + 1] == |topic| / 256 && frame[width + 2] == |topic| % 256;
    assert frame[width + 3..width + 3 + |topic|] == topic;
    assert frame[width + 3 + |topic|..] == payload;
    NoNul(topic);
  }

  /** Everything `Publish` puts on the wire is read back by `Loop` with the same buffer size: the whole
      frame is consumed and the same topic and payload are delivered, whatever follows on the wire. */
  lemma FrameRoundTrip(topic: Topic, payload: bytes, retained: bool, bufferSize: u16, rest: bytes)
    requires FitsBuffer(bufferSize, topic, payload)
    ensures var frame := Frame(topic, payload, retained);
      TurnSpec(frame + rest, bufferSize) == Handled(Some(Message(topic, payload, [])), |frame|)
  {
    hide EncodeLength, Deliver, WellFormed, Parse, Unguarded;
    var frame := Frame(topic, payload, retained);
    FrameParses(topic, payload, retained, rest);
    FrameUnguarded(topic, payload, retained, rest);
    FrameDelivers(topic, payload, retained);
    HeaderShort(2 + |topic| + |payload|);
    assert (frame + rest)[..|frame|] == frame;
  }

  lemma HeaderShort(n: nat)
    requires n < 0x1000_0000
    ensures |EncodeLength(n)| <= 4
  {
    Powers();
    DecodeEncode(n, 4, []);
  }

  // --- quality of service 1 ----------------------------------------------------------------------------------

  /** A PUBLISH packet of quality of service 1: the message id follows the topic. The four flag bits are the
      duplicate flag, the quality of service and the retain flag. */
  function Qos1Frame(topic: bytes, id: u16, payload: bytes, duplicate: bool, retained: bool): bytes
    requires |topic| < 0x1_0000
  {
    [0x32 + (if duplicate then 8 else 0) + (if retained then 1 else 0)]
    + EncodeLength(4 + |topic| + |payload|) + (BE16(|topic|) + topic + BE16(id) + payload)
  }

  /** It is handed on without its id, and answered with a PUBACK (section 3.4) that carries it. */
  lemma Qos1RoundTrip(topic: Topic, id: u16, payload: bytes, duplicate: bool, retained: bool, bufferSize: nat,
                      rest: bytes)
    requires |topic| < 0x1_0000 && 4 + |topic| + |payload| < 0x1000_0000
    requires |Qos1Frame(topic, id, payload, duplicate, retained)| <= bufferSize
    ensures var frame := Qos1Frame(topic, id, payload, duplicate, retained);
      TurnSpec(frame + rest, bufferSize) == Handled(Some(Message(topic, payload, [0x40, 2] + BE16(id))), |frame|)
  {
    hide EncodeLength, DecodeLength, FieldBytes, UpToNul;
    var n := 4 + |topic| + |payload|;
    var field, body := EncodeLength(n), BE16(|topic|) + topic + BE16(id) + payload;
    var frame := Qos1Frame(topic, id, payload, duplicate, retained);
    var width := |field|;
    Powers();
    DecodeEncode(n, 4, body + rest);
    FieldOfEncoded(n, 4, body + rest);
    assert (frame + rest)[1..] == field + (body + rest);
    assert (frame + rest)[..|frame|] == frame;
    assert frame == [frame[0]] + field + body;
    Qos1Delivers(topic, id, payload, frame, width);
  }

  lemma Qos1Delivers(topic: Topic, id: u16, payload: bytes, frame: bytes, width: nat)
    requires |topic| < 0x1_0000 && 1 + width <= |frame|
    requires IsPublish(frame[0]) && IsQos1(frame[0])
    requires frame[1 + width..] == BE16(|topic|) + topic + BE16(id) + payload
    ensures WellFormed(frame, width) && Deliver(frame, width) == Some(Message(topic, payload, [0x40, 2] + BE16(id)))
  {
    hide UpToNul;
    var body := BE16(|topic|) + topic + BE16(id) + payload;
    assert frame[width + 1] == body[0] && frame[width + 2] == body[1];
    assert body[2..2 + |topic|] == topic && body[2 + |topic|..] == BE16(id) + payload;
    assert frame[width + 3..width + 3 + |topic|] == topic by {
      SliceOfSlice(frame, 1 + width, |frame|, 2, 2 + |topic|);
    }
    assert frame[width + 3 + |topic|..] == BE16(id) + payload by {
      SliceOfSlice(frame, 1 + width, |frame|, 2 + |topic|, |body|);
    }
    var after := frame[width + 3 + |topic|..];
    assert after[2..] == payload && [0x40, 2, after[0], after[1]] == [0x40, 2] + BE16(id);
    NoNul(topic);
  }

  // --- a whole conversation ----------------------------------------------------------------------

  datatype Sent = Sent(topic: Topic, payload: bytes, retained: bool)

  predicate Sendable(m: Sent)
  {
    |m.topic| < 0x1_0000 && 2 + |m.topic| + |m.payload| < 0x1000_0000
  }

  /** The frames of several messages, one after the other. */
  function Wire(ms: seq<Sent>): bytes
    requires forall m :: m in ms ==> Sendable(m)
  {
    if ms == [] then []
    else
      assert Sendable(ms[0]);
      Frame(ms[0].topic, ms[0].payload, ms[0].retained) + Wire(ms[1..])
  }

  /** Turn after turn of the event loop until the input is used up or the reader leaves its buffer. */
  function ReadAll(input: bytes, bufferSize: nat): seq<Message>
    decreases |input|
  {
    match TurnSpec(input, bufferSize)
    case Astray => []
    case Handled(message, consumed) =>
      if consumed == 0 || consumed > |input| then []
      else (if message.Some? then [message.value] else []) + ReadAll(input[consumed..], bufferSize)
  }

  /** The header and the topic's length fit the buffer. */
  predicate HeaderFits(m: Sent, bufferSize: nat)
  {
    3 + |EncodeLength(2 + |m.topic| + |m.payload|)| <= bufferSize
  }

  function FrameSize(m: Sent): nat
    requires Sendable(m)
  {
    |Frame(m.topic, m.payload, m.retained)|
  }

  /** The messages whose frames fit the receiver's buffer. */
  function Fitting(ms: seq<Sent>, bufferSize: nat): seq<Message>
    requires forall m :: m in ms ==> Sendable(m)
  {
    if ms == [] then []
    else
      var first := if FrameSize(ms[0]) <= bufferSize then [Message(ms[0].topic, ms[0].payload, [])] else [];
      first + Fitting(ms[1..], bufferSize)
  }

  lemma ReadNext(m: Sent, rest: bytes, bufferSize: nat)
    requires Sendable(m) && HeaderFits(m, bufferSize)
    ensures ReadAll(Frame(m.topic, m.payload, m.retained) + rest, bufferSize) ==
      (if FrameSize(m) <= bufferSize then [Message(m.topic, m.payload, [])] else []) + ReadAll(rest, bufferSize)
  {
    hide EncodeLength, Deliver, WellFormed, Parse, Unguarded;
    var frame := Frame(m.topic, m.payload, m.retained);
    FrameParses(m.topic, m.payload, m.retained, rest);
    FrameUnguarded(m.topic, m.payload, m.retained, rest);
    FrameDelivers(m.topic, m.payload, m.retained);
    assert (frame + rest)[..|frame|] == frame && (frame + rest)[|frame|..] == rest;
  }

  /** A frame takes the reader outside its buffer exactly when its header does not fit it. */
  lemma AstrayExactly(m: Sent, rest: bytes, bufferSize: nat)
    requires Sendable(m)
    ensures TurnSpec(Frame(m.topic, m.payload, m.retained) + rest, bufferSize) == Astray <==> !HeaderFits(m, bufferSize)
  {
    hide EncodeLength, Deliver, WellFormed, Parse, Unguarded;
    var frame := Frame(m.topic, m.payload, m.retained);
    FrameParses(m.topic, m.payload, m.retained, rest);
    FrameUnguarded(m.topic, m.payload, m.retained, rest);
    FrameDelivers(m.topic, m.payload, m.retained);
    assert (frame + rest)[..|frame|] == frame;
  }

  /** However many messages are sent, of whatever size, the receiver delivers exactly those whose frames
      fit its buffer, unchanged and in order; a frame too large never disturbs the ones after it. */
  lemma {:induction false} ConversationDelivered(ms: seq<Sent>, bufferSize: nat)
    requires forall m :: m in ms ==> Sendable(m) && HeaderFits(m, bufferSize)
    ensures ReadAll(Wire(ms), bufferSize) == Fitting(ms, bufferSize)
    decreases |ms|
  {
    hide TurnSpec, Frame, HeaderFits;
    if ms != [] {
      ReadNext(ms[0], Wire(ms[1..]), bufferSize);
      ConversationDelivered(ms[1..], bufferSize);
    }
  }

  lemma Powers()
    ensures Pow128(4) == 0x1000_0000
  {
    assert Pow128(1) == 128;
    assert Pow128(3) == 128 * Pow128(2);
  }
}
