/** The bytes of the records on flash, field by field: packed structs, numbers lowest byte first, sealed by the
    checksum of the struct with its own field zeroed. */
module Layout {
  import opened Bytes
  import opened Crc32
  import opened CrcStandard
  import opened Records

  /** The number `v` stands at `off`. */
  predicate FieldAt(b: bytes, off: nat, width: nat, v: nat)
  {
    off + width <= |b| && b[off..off + width] == LE(v, width)
  }

  /** The last field is the checksum, at `off`. */
  predicate SealedAt(b: bytes, off: nat)
  {
    |b| == off + 4 && FieldAt(b, off, 4, Value(Crc(b[..off] + [0, 0, 0, 0])))
  }

  lemma NextField(layout: seq<nat>, vals: seq<nat>, i: nat, off: nat)
    requires |layout| == |vals| && i < |layout| && Size(layout[..i]) == off
    ensures FieldAt(Seal(layout, vals), off, layout[i], vals[i]) && Size(layout[..i + 1]) == off + layout[i]
  {
    hide Seal, LE;
    SealField(layout, vals, i);
    SizeNext(layout, i);
  }

  lemma {:induction false} SizeNext(layout: seq<nat>, i: nat)
    requires i < |layout|
    ensures Size(layout[..i + 1]) == Size(layout[..i]) + layout[i]
    decreases i
  {
    if i > 0 {
      SizeNext(layout[1..], i - 1);
      assert layout[..i + 1][1..] == layout[1..][..i] && layout[..i][1..] == layout[1..][..i - 1];
    } else {
      assert layout[..1][1..] == [];
    }
  }

  lemma NoFields(layout: seq<nat>)
    ensures Size(layout[..0]) == 0
  {
  }

  lemma WholeStruct(layout: seq<nat>, vals: seq<nat>, size: nat)
    requires |layout| == |vals| && Size(layout[..|layout|]) == size
    ensures SealedAt(Seal(layout, vals), size) && |Seal(layout, vals)| == size + 4
  {
    hide Value, Crc, Pack;
    assert layout[..|layout|] == layout;
    var payload := Pack(layout, vals);
    StoredLowestByteFirst(Crc(payload + Blank4()));
    assert Seal(layout, vals)[..size] == payload;
  }

  lemma RowLayout(r: Row)
    ensures var b := EncodeRow(r);
      && FieldAt(b, 0, 4, 0x5152_4F57) && FieldAt(b, 4, 2, r.schema) && FieldAt(b, 6, 2, r.rtype)
      && FieldAt(b, 8, 4, r.boot) && FieldAt(b, 12, 4, r.seqNo) && FieldAt(b, 16, 4, r.ts)
      && FieldAt(b, 20, 8, r.total) && FieldAt(b, 28, 2, r.quality) && FieldAt(b, 30, 2, r.rssi)
      && |b| == 36 && SealedAt(b, 32)
  {
    hide LE, FieldAt, SealedAt, Size, Seal;
    var vals := RowVals(r);
    NoFields(ROW_LAYOUT);
    NextField(ROW_LAYOUT, vals, 0, 0);
    NextField(ROW_LAYOUT, vals, 1, 4);
    NextField(ROW_LAYOUT, vals, 2, 6);
    NextField(ROW_LAYOUT, vals, 3, 8);
    NextField(ROW_LAYOUT, vals, 4, 12);
    NextField(ROW_LAYOUT, vals, 5, 16);
    NextField(ROW_LAYOUT, vals, 6, 20);
    NextField(ROW_LAYOUT, vals, 7, 28);
    NextField(ROW_LAYOUT, vals, 8, 30);
    WholeStruct(ROW_LAYOUT, vals, 32);
  }

  lemma CheckpointLayout(c: Rec<Checkpoint>)
    ensures var b := EncodeCheckpoint(c);
      && FieldAt(b, 0, 4, 0xC0A1_7071) && FieldAt(b, 4, 8, c.body.total) && FieldAt(b, 12, 4, c.body.boot)
      && FieldAt(b, 16, 4, c.body.seqNo) && FieldAt(b, 20, 4, c.writes) && FieldAt(b, 24, 4, c.body.qSegment)
      && FieldAt(b, 28, 4, c.body.qOffset)
      && |b| == 36 && SealedAt(b, 32)
  {
    hide LE, FieldAt, SealedAt, Size, Seal;
    var vals := CheckpointVals(c);
    NoFields(CKPT_LAYOUT);
    NextField(CKPT_LAYOUT, vals, 0, 0);
    NextField(CKPT_LAYOUT, vals, 1, 4);
    NextField(CKPT_LAYOUT, vals, 2, 12);
    NextField(CKPT_LAYOUT, vals, 3, 16);
    NextField(CKPT_LAYOUT, vals, 4, 20);
    NextField(CKPT_LAYOUT, vals, 5, 24);
    NextField(CKPT_LAYOUT, vals, 6, 28);
    WholeStruct(CKPT_LAYOUT, vals, 32);
  }

  lemma LegacyLayout(c: Rec<Checkpoint>)
    ensures var b := EncodeLegacy(c);
      && FieldAt(b, 0, 4, 0xC0A1_7071) && FieldAt(b, 4, 8, c.body.total) && FieldAt(b, 12, 4, c.body.boot)
      && FieldAt(b, 16, 4, c.body.seqNo) && FieldAt(b, 20, 4, c.writes)
      && |b| == 28 && SealedAt(b, 24)
  {
    hide LE, FieldAt, SealedAt, Size, Seal;
    var vals := [CKPT_MAGIC, c.body.total, c.body.boot, c.body.seqNo, c.writes];
    NoFields(LEGACY_LAYOUT);
    NextField(LEGACY_LAYOUT, vals, 0, 0);
    NextField(LEGACY_LAYOUT, vals, 1, 4);
    NextField(LEGACY_LAYOUT, vals, 2, 12);
    NextField(LEGACY_LAYOUT, vals, 3, 16);
    NextField(LEGACY_LAYOUT, vals, 4, 20);
    WholeStruct(LEGACY_LAYOUT, vals, 24);
  }

  lemma AckLayout(a: Rec<Ack>)
    ensures var b := EncodeAck(a);
      && FieldAt(b, 0, 4, 0xAC4E_D000) && FieldAt(b, 4, 4, a.body.acked) && FieldAt(b, 8, 4, a.body.boot)
      && FieldAt(b, 12, 4, a.writes) && FieldAt(b, 16, 4, a.body.cursorSegment)
      && FieldAt(b, 20, 4, a.body.cursorOffset)
      && |b| == 28 && SealedAt(b, 24)
  {
    hide LE, FieldAt, SealedAt, Size, Seal;
    var vals := AckVals(a);
    NoFields(ACK_LAYOUT);
    NextField(ACK_LAYOUT, vals, 0, 0);
    NextField(ACK_LAYOUT, vals, 1, 4);
    NextField(ACK_LAYOUT, vals, 2, 8);
    NextField(ACK_LAYOUT, vals, 3, 12);
    NextField(ACK_LAYOUT, vals, 4, 16);
    NextField(ACK_LAYOUT, vals, 5, 20);
    WholeStruct(ACK_LAYOUT, vals, 24);
  }

  lemma FailureLayout(f: Rec<Failure>)
    ensures var b := EncodeFailure(f);
      && FieldAt(b, 0, 4, 0xFA17_ED00) && FieldAt(b, 4, 4, f.body.count) && FieldAt(b, 8, 4, f.body.firstS)
      && FieldAt(b, 12, 4, f.body.lastS) && FieldAt(b, 16, 4, f.body.code) && FieldAt(b, 20, 4, f.writes)
      && |b| == 28 && SealedAt(b, 24)
  {
    hide LE, FieldAt, SealedAt, Size, Seal;
    var vals := FailureVals(f);
    NoFields(FAIL_LAYOUT);
    NextField(FAIL_LAYOUT, vals, 0, 0);
    NextField(FAIL_LAYOUT, vals, 1, 4);
    NextField(FAIL_LAYOUT, vals, 2, 8);
    NextField(FAIL_LAYOUT, vals, 3, 12);
    NextField(FAIL_LAYOUT, vals, 4, 16);
    NextField(FAIL_LAYOUT, vals, 5, 20);
    WholeStruct(FAIL_LAYOUT, vals, 24);
  }
}
