/** The fixed-size records kept on flash: packed little-endian fields sealed by a CRC-32.
    The checksum is taken over the whole struct with its own field zeroed. */
module Records {
  import opened Bytes
  import opened Crc32

  const QROW_MAGIC: u32 := 0x5152_4F57
  const CKPT_MAGIC: u32 := 0xC0A1_7071
  const ACK_MAGIC: u32 := 0xAC4E_D000
  const FAIL_MAGIC: u32 := 0xFA17_ED00

  // --- sealed structs in general ---------------------------------------------------

  function Blank4(): (b: bytes)
    ensures |b| == 4
  {
    [0, 0, 0, 0]
  }

  function Sealed(payload: bytes): (b: bytes)
    ensures |b| == |payload| + 4
  {
    payload + CrcBytes(payload + Blank4())
  }

  function Seal(layout: seq<nat>, vals: seq<nat>): (b: bytes)
    requires |layout| == |vals|
    ensures |b| == Size(layout) + 4
  {
    Sealed(Pack(layout, vals))
  }

  /** The fields of a struct of the right size, magic and checksum; None otherwise. */
  function Unseal(layout: seq<nat>, magic: u32, b: bytes): (vals: Option<seq<nat>>)
    requires |layout| > 0
    ensures vals.Some? ==> |b| == Size(layout) + 4 && Fits(layout, vals.value) && vals.value[0] == magic
  {
    var n := Size(layout);
    if |b| != n + 4 then None
    else
      var fields := Unpack(layout, b[..n]);
      if fields[0] == magic && b == Sealed(b[..n]) then Some(fields) else None
  }

  lemma UnsealSeal(layout: seq<nat>, magic: u32, vals: seq<nat>)
    requires |layout| > 0 && Fits(layout, vals) && vals[0] == magic
    ensures Unseal(layout, magic, Seal(layout, vals)) == Some(vals)
  {
    PackRoundTrip(layout, vals);
    assert Seal(layout, vals)[..Size(layout)] == Pack(layout, vals);
  }

  /** A sealed struct whose payload was altered within four adjacent bytes is not read back. */
  lemma PayloadBurstRejected(layout: seq<nat>, magic: u32, pre: bytes, v: bytes, w: bytes, post: bytes)
    requires |layout| > 0 && |v| == |w| <= 4 && v != w
    ensures Unseal(layout, magic, pre + w + post + CrcBytes(pre + v + post + Blank4())) == None
  {
    var good, bad := pre + v + post, pre + w + post;
    if |bad| == Size(layout) {
      assert good + Blank4() == pre + v + (post + Blank4());
      assert bad + Blank4() == pre + w + (post + Blank4());
      DetectsBurst(pre, v, w, post + Blank4());
      if CrcBytes(good + Blank4()) == CrcBytes(bad + Blank4()) {
        WordBytesInjective(Crc(good + Blank4()), Crc(bad + Blank4()));
      }
      var file := bad + CrcBytes(good + Blank4());
      assert file[..|bad|] == bad && file[|bad|..] == CrcBytes(good + Blank4());
      assert Sealed(bad)[|bad|..] == CrcBytes(bad + Blank4());
    }
  }

  /** Any alteration confined to the stored checksum is not read back either. */
  lemma ChecksumChangeRejected(layout: seq<nat>, magic: u32, payload: bytes, sum: bytes)
    requires |layout| > 0 && |sum| == 4 && sum != CrcBytes(payload + Blank4())
    ensures Unseal(layout, magic, payload + sum) == None
  {
    if |payload| == Size(layout) {
      assert (payload + sum)[..|payload|] == payload && (payload + sum)[|payload|..] == sum;
      assert Sealed(payload)[|payload|..] == CrcBytes(payload + Blank4());
    }
  }

  /** A slot file holding only the beginning of a record, as a cut write leaves it, is not read back. */
  lemma TornRejected(layout: seq<nat>, magic: u32, vals: seq<nat>, torn: bytes)
    requires |layout| > 0 && |layout| == |vals| && torn < Seal(layout, vals)
    ensures Unseal(layout, magic, torn) == None
  {
  }

  // --- queue rows --------------------------------------------------------------------

  datatype Row = Row(schema: u16, rtype: u16, boot: u32, seqNo: u32, ts: u32, total: u64, quality: u16, rssi: u16)

  const ROW_LAYOUT: seq<nat> := [4, 2, 2, 4, 4, 4, 8, 2, 2]
  const ROW: nat := 36

  /** The bytes that `n` rows occupy. */
  function RowBytes(n: nat): nat
  {
    36 * n
  }

  function RowVals(r: Row): (vals: seq<nat>)
    ensures |vals| == 9 && vals[0] == QROW_MAGIC
  {
    [QROW_MAGIC, r.schema, r.rtype, r.boot, r.seqNo, r.ts, r.total, r.quality, r.rssi]
  }

  function RowOf(vals: seq<nat>): Row
    requires Fits(ROW_LAYOUT, vals)
  {
    Row(U16At(ROW_LAYOUT, vals, 1), U16At(ROW_LAYOUT, vals, 2), U32At(ROW_LAYOUT, vals, 3), U32At(ROW_LAYOUT, vals, 4),
        U32At(ROW_LAYOUT, vals, 5), U64At(ROW_LAYOUT, vals, 6), U16At(ROW_LAYOUT, vals, 7), U16At(ROW_LAYOUT, vals, 8))
  }

  lemma RowSize()
    ensures Size(ROW_LAYOUT) + 4 == ROW
  {
    SizeOfFields(ROW_LAYOUT);
  }

  /** The size of a struct of up to nine fields, spelled out. */
  lemma SizeOfFields(l: seq<nat>)
    requires |l| <= 9
    ensures Size(l) == At(l, 0) + At(l, 1) + At(l, 2) + At(l, 3) + At(l, 4) + At(l, 5) + At(l, 6) + At(l, 7) + At(l, 8)
  {
    SizeFrom(l, 0); SizeFrom(l, 1); SizeFrom(l, 2); SizeFrom(l, 3); SizeFrom(l, 4);
    SizeFrom(l, 5); SizeFrom(l, 6); SizeFrom(l, 7); SizeFrom(l, 8);
    assert l[0..] == l;
  }

  function At(l: seq<nat>, i: nat): nat
  {
    if i < |l| then l[i] else 0
  }

  function From(l: seq<nat>, i: nat): seq<nat>
  {
    if i < |l| then l[i..] else []
  }

  lemma SizeFrom(l: seq<nat>, i: nat)
    ensures Size(From(l, i)) == At(l, i) + Size(From(l, i + 1))
  {
    if i < |l| {
      assert l[i..][1..] == l[i + 1..];
    }
  }

  function EncodeRow(r: Row): (b: bytes)
    ensures |b| == ROW
  {
    RowSize();
    Seal(ROW_LAYOUT, RowVals(r))
  }

  /** The row stored in a cell; None when the magic or the checksum does not match. */
  function ReadRow(cell: bytes): Option<Row>
  {
    var vals := Unseal(ROW_LAYOUT, QROW_MAGIC, cell);
    if vals.Some? then Some(RowOf(vals.value)) else None
  }

  lemma ReadEncodeRow(r: Row)
    ensures ReadRow(EncodeRow(r)) == Some(r)
  {
    WordSizes();
    UnsealSeal(ROW_LAYOUT, QROW_MAGIC, RowVals(r));
  }

  // --- ping-pong records -----------------------------------------------------------------

  /** A slot record: its write counter decides which slot is newer. */
  datatype Rec<+T> = Rec(writes: u32, body: T)

  datatype Checkpoint = Checkpoint(total: u64, boot: u32, seqNo: u32, qSegment: u32, qOffset: u32)
  datatype Ack = Ack(acked: u32, boot: u32, cursorSegment: u32, cursorOffset: u32)
  datatype Failure = Failure(count: u32, firstS: u32, lastS: u32, code: u32)

  /** The checkpoint with the queue confirmed up to here, and with this total and number; nothing else changes. */
  function ConfirmedUpTo(c: Checkpoint, segment: u32, offset: u32): Checkpoint
  {
    c.(qSegment := segment, qOffset := offset)
  }

  function Counted(c: Checkpoint, total: u64, seqNo: u32): Checkpoint
  {
    c.(total := total, seqNo := seqNo)
  }

  const CKPT_LAYOUT: seq<nat> := [4, 8, 4, 4, 4, 4, 4]
  const LEGACY_LAYOUT: seq<nat> := [4, 8, 4, 4, 4]
  const ACK_LAYOUT: seq<nat> := [4, 4, 4, 4, 4, 4]
  const FAIL_LAYOUT: seq<nat> := [4, 4, 4, 4, 4, 4]

  function CheckpointVals(c: Rec<Checkpoint>): (vals: seq<nat>)
    ensures |vals| == 7
  {
    [CKPT_MAGIC, c.body.total, c.body.boot, c.body.seqNo, c.writes, c.body.qSegment, c.body.qOffset]
  }

  function EncodeCheckpoint(c: Rec<Checkpoint>): (b: bytes)
    ensures |b| == 36
  {
    CheckpointSizes();
    Seal(CKPT_LAYOUT, CheckpointVals(c))
  }

  function CheckpointOf(v: seq<nat>): Rec<Checkpoint>
    requires Fits(CKPT_LAYOUT, v)
  {
    Rec(U32At(CKPT_LAYOUT, v, 4), Checkpoint(U64At(CKPT_LAYOUT, v, 1), U32At(CKPT_LAYOUT, v, 2),
      U32At(CKPT_LAYOUT, v, 3), U32At(CKPT_LAYOUT, v, 5), U32At(CKPT_LAYOUT, v, 6)))
  }

  function LoadCheckpoint(file: bytes): Option<Rec<Checkpoint>>
  {
    var v := Unseal(CKPT_LAYOUT, CKPT_MAGIC, file);
    if v.Some? then Some(CheckpointOf(v.value)) else None
  }

  lemma LoadEncodeCheckpoint(c: Rec<Checkpoint>)
    ensures LoadCheckpoint(EncodeCheckpoint(c)) == Some(c)
  {
    WordSizes();
    UnsealSeal(CKPT_LAYOUT, CKPT_MAGIC, CheckpointVals(c));
  }

  lemma TornCheckpoint(c: Rec<Checkpoint>, torn: bytes)
    requires torn < EncodeCheckpoint(c)
    ensures LoadCheckpoint(torn) == None
  {
    TornRejected(CKPT_LAYOUT, CKPT_MAGIC, CheckpointVals(c), torn);
  }

  /** The 28-byte layout written before queue positions were checkpointed. */
  function EncodeLegacy(c: Rec<Checkpoint>): bytes
  {
    Seal(LEGACY_LAYOUT, [CKPT_MAGIC, c.body.total, c.body.boot, c.body.seqNo, c.writes])
  }

  function LegacyOf(v: seq<nat>): Rec<Checkpoint>
    requires Fits(LEGACY_LAYOUT, v)
  {
    Rec(U32At(LEGACY_LAYOUT, v, 4), Checkpoint(U64At(LEGACY_LAYOUT, v, 1), U32At(LEGACY_LAYOUT, v, 2),
      U32At(LEGACY_LAYOUT, v, 3), 0, 0))
  }

  /** A legacy record, upconverted with the queue position set to the start. */
  function LoadLegacy(file: bytes): Option<Rec<Checkpoint>>
  {
    var v := Unseal(LEGACY_LAYOUT, CKPT_MAGIC, file);
    if v.Some? then Some(LegacyOf(v.value)) else None
  }

  lemma LoadEncodeLegacy(c: Rec<Checkpoint>)
    ensures LoadLegacy(EncodeLegacy(c)) == Some(c.(body := c.body.(qSegment := 0, qOffset := 0)))
    ensures LoadCheckpoint(EncodeLegacy(c)) == None
  {
    WordSizes();
    UnsealSeal(LEGACY_LAYOUT, CKPT_MAGIC, [CKPT_MAGIC, c.body.total, c.body.boot, c.body.seqNo, c.writes]);
    CheckpointSizes();
  }

  lemma CheckpointSizes()
    ensures Size(CKPT_LAYOUT) == 32 && Size(LEGACY_LAYOUT) == 24
  {
    SizeOfFields(CKPT_LAYOUT);
    SizeOfFields(LEGACY_LAYOUT);
  }

  /** Either format, the current one first. */
  function LoadEither(file: bytes): Option<Rec<Checkpoint>>
  {
    if LoadCheckpoint(file).Some? then LoadCheckpoint(file) else LoadLegacy(file)
  }

  /** A checkpoint write cut short is unreadable in both formats, with one exact exception: 28 bytes
      landed and the queue segment, in the place of the legacy checksum, happens to equal it. */
  lemma TornCheckpointReadable(c: Rec<Checkpoint>, torn: bytes)
    requires torn < EncodeCheckpoint(c)
    ensures LoadEither(torn).Some? <==> |torn| == 28 && LE(c.body.qSegment, 4) == CrcBytes(torn[..24] + Blank4())
  {
    TornCheckpoint(c, torn);
    CheckpointSizes();
    UnsealWhen(LEGACY_LAYOUT, CKPT_MAGIC, torn);
    if |torn| == 28 {
      CheckpointFields(c);
      WordSizes();
      LERoundTrip(CKPT_MAGIC, 4);
      PrefixSlices(torn, EncodeCheckpoint(c));
    }
  }

  lemma PrefixSlices(t: bytes, b: bytes)
    requires t <= b && |t| == 28
    ensures t[..24] == b[..24] && t[24..] == b[24..28] && t[..24][..4] == b[..4]
  {
  }

  /** Exactly when a struct is accepted. */
  lemma UnsealWhen(layout: seq<nat>, magic: u32, b: bytes)
    requires |layout| > 0
    ensures var n := Size(layout);
      Unseal(layout, magic, b).Some? <==>
        |b| == n + 4 && UnLE(b[..n][..layout[0]]) == magic && b[n..] == CrcBytes(b[..n] + Blank4())
  {
    var n := Size(layout);
    if |b| == n + 4 {
      UnpackHead(layout, b[..n]);
      assert b == b[..n] + b[n..];
      assert Sealed(b[..n])[n..] == CrcBytes(b[..n] + Blank4());
    }
  }

  lemma UnpackHead(layout: seq<nat>, b: bytes)
    requires |layout| > 0 && |b| == Size(layout)
    ensures Unpack(layout, b)[0] == UnLE(b[..layout[0]])
  {
  }

  lemma CheckpointFields(c: Rec<Checkpoint>)
    ensures EncodeCheckpoint(c)[..4] == LE(CKPT_MAGIC, 4)
    ensures EncodeCheckpoint(c)[24..28] == LE(c.body.qSegment, 4)
  {
    SizesBefore();
    SealField(CKPT_LAYOUT, CheckpointVals(c), 0);
    SealField(CKPT_LAYOUT, CheckpointVals(c), 5);
  }

  lemma SizesBefore()
    ensures Size(CKPT_LAYOUT[..0]) == 0 && Size(CKPT_LAYOUT[..5]) == 24
  {
    SizeOfFields(CKPT_LAYOUT[..5]);
  }

  lemma SealField(layout: seq<nat>, vals: seq<nat>, i: nat)
    requires |layout| == |vals| && i < |layout|
    ensures Size(layout[..i]) + layout[i] <= Size(layout)
    ensures Seal(layout, vals)[Size(layout[..i])..Size(layout[..i]) + layout[i]] == LE(vals[i], layout[i])
  {
    hide CrcBytes;
    PackField(layout, vals, i);
    var at := Size(layout[..i]);
    assert Seal(layout, vals)[at..at + layout[i]] == Pack(layout, vals)[at..at + layout[i]];
  }

  lemma SkipHead(head: bytes, tail: bytes, at: nat, n: nat)
    requires at + n <= |tail|
    ensures (head + tail)[|head| + at..|head| + at + n] == tail[at..at + n]
  {
  }

  lemma {:induction false} PackField(layout: seq<nat>, vals: seq<nat>, i: nat)
    requires |layout| == |vals| && i < |layout|
    ensures Size(layout[..i]) + layout[i] <= Size(layout)
    ensures Pack(layout, vals)[Size(layout[..i])..Size(layout[..i]) + layout[i]] == LE(vals[i], layout[i])
  {
    if i > 0 {
      PackField(layout[1..], vals[1..], i - 1);
      assert layout[..i][1..] == layout[1..][..i - 1];
      var at := Size(layout[1..][..i - 1]);
      var head, tail := LE(vals[0], layout[0]), Pack(layout[1..], vals[1..]);
      SkipHead(head, tail, at, layout[i]);
    }
  }

  /** A finished checkpoint reads back in the current format. */
  lemma LoadEitherEncoded(c: Rec<Checkpoint>)
    ensures LoadEither(EncodeCheckpoint(c)) == Some(c)
  {
    LoadEncodeCheckpoint(c);
  }

  function AckVals(a: Rec<Ack>): (vals: seq<nat>)
    ensures |vals| == 6
  {
    [ACK_MAGIC, a.body.acked, a.body.boot, a.writes, a.body.cursorSegment, a.body.cursorOffset]
  }

  function EncodeAck(a: Rec<Ack>): (b: bytes)
    ensures |b| == 28
  {
    SizeOfFields(ACK_LAYOUT);
    Seal(ACK_LAYOUT, AckVals(a))
  }

  function AckOf(v: seq<nat>): Rec<Ack>
    requires Fits(ACK_LAYOUT, v)
  {
    Rec(U32At(ACK_LAYOUT, v, 3), Ack(U32At(ACK_LAYOUT, v, 1), U32At(ACK_LAYOUT, v, 2),
      U32At(ACK_LAYOUT, v, 4), U32At(ACK_LAYOUT, v, 5)))
  }

  /** At most the size of the record is read from the file; anything after it is ignored. */
  function LoadAck(file: bytes): Option<Rec<Ack>>
  {
    var v := Unseal(ACK_LAYOUT, ACK_MAGIC, Take(file, 28));
    if v.Some? then Some(AckOf(v.value)) else None
  }

  lemma LoadEncodeAck(a: Rec<Ack>)
    ensures LoadAck(EncodeAck(a)) == Some(a)
  {
    WordSizes();
    UnsealSeal(ACK_LAYOUT, ACK_MAGIC, AckVals(a));
  }

  lemma AckPrefix(a: Rec<Ack>, k: nat)
    requires k <= 28
    ensures LoadAck(EncodeAck(a)[..k]) == if k == 28 then Some(a) else None
  {
    hide CrcBytes;
    var torn := EncodeAck(a)[..k];
    LoadEncodeAck(a);
    assert Take(torn, 28) == torn;
    if k < 28 {
      TornRejected(ACK_LAYOUT, ACK_MAGIC, AckVals(a), torn);
    } else {
      assert torn == EncodeAck(a);
    }
  }

  function FailureVals(f: Rec<Failure>): (vals: seq<nat>)
    ensures |vals| == 6
  {
    [FAIL_MAGIC, f.body.count, f.body.firstS, f.body.lastS, f.body.code, f.writes]
  }

  function EncodeFailure(f: Rec<Failure>): (b: bytes)
    ensures |b| == 28
  {
    SizeOfFields(FAIL_LAYOUT);
    Seal(FAIL_LAYOUT, FailureVals(f))
  }

  function FailureOf(v: seq<nat>): Rec<Failure>
    requires Fits(FAIL_LAYOUT, v)
  {
    Rec(U32At(FAIL_LAYOUT, v, 5), Failure(U32At(FAIL_LAYOUT, v, 1), U32At(FAIL_LAYOUT, v, 2),
      U32At(FAIL_LAYOUT, v, 3), U32At(FAIL_LAYOUT, v, 4)))
  }

  function LoadFailure(file: bytes): Option<Rec<Failure>>
  {
    var v := Unseal(FAIL_LAYOUT, FAIL_MAGIC, Take(file, 28));
    if v.Some? then Some(FailureOf(v.value)) else None
  }

  lemma LoadEncodeFailure(f: Rec<Failure>)
    ensures LoadFailure(EncodeFailure(f)) == Some(f)
  {
    WordSizes();
    UnsealSeal(FAIL_LAYOUT, FAIL_MAGIC, FailureVals(f));
  }

  /** What is read back after the first `k` bytes of a record landed. */
  lemma FailurePrefix(f: Rec<Failure>, k: nat)
    requires k <= 28
    ensures LoadFailure(EncodeFailure(f)[..k]) == if k == 28 then Some(f) else None
  {
    hide CrcBytes;
    var torn := EncodeFailure(f)[..k];
    LoadEncodeFailure(f);
    assert Take(torn, 28) == torn;
    if k < 28 {
      TornRejected(FAIL_LAYOUT, FAIL_MAGIC, FailureVals(f), torn);
    } else {
      assert torn == EncodeFailure(f);
    }
  }
}
