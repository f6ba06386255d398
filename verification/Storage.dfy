/** The flash file system as the firmware sees it, with the faults it is written against.
    Power may be lost at any operation; from then on nothing on flash changes. */
module Storage {
  import opened Bytes
  import opened Records
  import opened PingPong

  /** Contents of the flash. A slot file that does not exist reads like an empty one. */
  datatype Disk = Disk(
    segs: map<nat, bytes>,
    ckA: bytes, ckB: bytes,   // totalizer checkpoint slots
    akA: bytes, akB: bytes,   // acknowledgement slots
    flA: bytes, flB: bytes)   // failure-history slots

  function FileOf(segs: map<nat, bytes>, seg: nat): bytes
  {
    if seg in segs then segs[seg] else []
  }

  function CkPair(d: Disk): Pair<Checkpoint>
  {
    Pair(LoadEither(d.ckA), LoadEither(d.ckB))
  }

  function AkPair(d: Disk): Pair<Ack>
  {
    Pair(LoadAck(d.akA), LoadAck(d.akB))
  }

  function FlPair(d: Disk): Pair<Failure>
  {
    Pair(LoadFailure(d.flA), LoadFailure(d.flB))
  }

  /** The operations that can fail although power lasts. */
  datatype Operation = OpenFile | TruncateFile | WriteRow | WriteHistory

  class Flash {
    var disk: Disk
    var on: bool
    /** Whether every read returns at least one row when one is available. */
    const steady: bool
    /** The operations this flash may refuse; any other is carried out while power lasts. */
    const refuses: set<Operation>

    constructor (disk: Disk, steady: bool, refuses: set<Operation>)
      ensures this.disk == disk && on && this.steady == steady && this.refuses == refuses
    {
      this.disk := disk;
      this.steady := steady;
      this.refuses := refuses;
      on := true;
    }

    /** Opens a segment for appending, creating it if needed, and reports its size; -1 on failure. */
    method AppendOpenSize(seg: nat) returns (size: int)
      modifies this
      ensures on ==> old(on)
      ensures disk == old(disk) || (old(on) && disk == Touched(old(disk), seg))
      ensures on && size < 0 ==> disk == old(disk) && OpenFile in refuses
      ensures on && size >= 0 ==> disk == Touched(old(disk), seg) && size == |FileOf(old(disk).segs, seg)|
    {
      size := -1;
      if !on { return; }
      if * { on := false; return; }
      if OpenFile in refuses { if * { return; } }
      disk := Touched(disk, seg);
      size := |disk.segs[seg]|;
      if * { on := false; }
    }

    method TruncateTo(seg: nat, size: nat) returns (ok: bool)
      requires size <= |FileOf(disk.segs, seg)|
      modifies this
      ensures on ==> old(on)
      ensures disk == old(disk) || (old(on) && disk == Truncated(old(disk), seg, size))
      ensures on ==> disk == if ok then Truncated(old(disk), seg, size) else old(disk)
      ensures on && !ok ==> TruncateFile in refuses
    {
      ok := false;
      if !on { return; }
      if * { on := false; return; }
      if TruncateFile in refuses { if * { return; } }
      disk := Truncated(disk, seg, size);
      ok := true;
      if * { on := false; }
    }

    /** Appends to a segment; reports how many bytes landed, -1 if it could not be opened. */
    method AppendWrite(seg: nat, data: bytes) returns (written: int)
      modifies this
      ensures on ==> old(on)
      ensures disk == old(disk) ||
        (old(on) && disk == old(disk).(segs := old(disk).segs[seg := FileOf(disk.segs, seg)]))
      ensures var was := FileOf(old(disk).segs, seg); was <= FileOf(disk.segs, seg) <= was + data
      ensures on && written == |data| ==>
        disk == old(disk).(segs := old(disk).segs[seg := FileOf(old(disk).segs, seg) + data])
      ensures on && written != |data| ==> WriteRow in refuses
    {
      written := -1;
      if !on { return; }
      if * { on := false; return; }
      var k: nat := |data|;
      if WriteRow in refuses {
        if * { return; }
        k :| k <= |data|;
      } else if * {
        k :| k <= |data|;
        on := false;
      }
      written := k;
      var was := FileOf(disk.segs, seg);
      disk := disk.(segs := disk.segs[seg := was + data[..k]]);
      assert was + data == (was + data[..k]) + data[k..];
      assert k == |data| ==> data[..k] == data;
      if * { on := false; }
    }

    /** Reads up to `want` bytes at `at`; a short read returns fewer, a failed one none. */
    method ReadAt(seg: nat, at: nat, want: nat) returns (data: bytes)
      modifies this
      ensures disk == old(disk) && (on ==> old(on))
      ensures var file := FileOf(disk.segs, seg);
        && |data| <= want
        && (data == [] || (at + |data| <= |file| && data == file[at..at + |data|]))
        && (on && steady && ROW <= want && at + ROW <= |file| ==> |data| >= ROW)
    {
      data := [];
      if !on { return; }
      if * { on := false; return; }
      var file := FileOf(disk.segs, seg);
      if at <= |file| {
        var k: nat :| k <= want && at + k <= |file| && (steady && ROW <= want && at + ROW <= |file| ==> k >= ROW);
        data := file[at..at + k];
      }
    }

    method Remove(seg: nat)
      modifies this
      ensures on ==> old(on)
      ensures disk == old(disk) || (old(on) && disk == old(disk).(segs := old(disk).segs - {seg}))
      ensures on ==> disk == old(disk).(segs := old(disk).segs - {seg})
    {
      if !on { return; }
      if * { on := false; return; }
      disk := disk.(segs := disk.segs - {seg});
      if * { on := false; }
    }

    /** Rewrites one checkpoint slot. Only a power cut can leave it unfinished. */
    method WriteCheckpoint(r: Rec<Checkpoint>)
      modifies this
      ensures on ==> old(on)
      ensures disk == old(disk).(ckA := disk.ckA, ckB := disk.ckB)
      ensures !old(on) ==> disk == old(disk)
      ensures SlotWritten(old(disk), r, disk, on) && Persisted(CkPair(old(disk)), r, CkPair(disk), on)
    {
      if !on { return; }
      hide LoadEither, EncodeCheckpoint;
      if * { on := false; return; }
      var data, whole := Landed(r);
      LoadEitherEncoded(r);
      disk := if UsesA(r.writes) then disk.(ckA := data) else disk.(ckB := data);
      if * { on := false; }
      if !whole { on := false; }
    }

    /** What a checkpoint write leaves in its slot: all of the record, or a beginning that no format
        accepts. The one partial write that would read back as a legacy record is outside the fault
        model; Records.TornCheckpointReadable says exactly which one that is. */
    static method Landed(r: Rec<Checkpoint>) returns (data: bytes, whole: bool)
      ensures if whole then data == EncodeCheckpoint(r) else LoadEither(data) == None
    {
      hide LoadEither, EncodeCheckpoint;
      var k: nat :| k <= 36;
      data, whole := EncodeCheckpoint(r)[..k], k == 36;
      assert EncodeCheckpoint(r)[..36] == EncodeCheckpoint(r);
      EmptyUnreadable();
      if !whole && LoadEither(data).Some? { data := []; }
    }

    method WriteAck(r: Rec<Ack>)
      modifies this
      ensures on ==> old(on)
      ensures disk == old(disk).(akA := disk.akA, akB := disk.akB)
      ensures !old(on) ==> disk == old(disk)
      ensures Persisted(AkPair(old(disk)), r, AkPair(disk), on)
    {
      if !on { return; }
      if * { on := false; return; }
      var k: nat :| k <= 28;
      AckPrefix(r, k);
      var data := EncodeAck(r)[..k];
      disk := if UsesA(r.writes) then disk.(akA := data) else disk.(akB := data);
      if * { on := false; }
      if k < 28 { on := false; }
    }

    /** Rewrites one failure-history slot; this write may also fail without a cut. */
    method WriteFailure(r: Rec<Failure>) returns (ok: bool)
      modifies this
      ensures on ==> old(on)
      ensures disk == old(disk).(flA := disk.flA, flB := disk.flB)
      ensures !old(on) ==> disk == old(disk)
      ensures Persisted(FlPair(old(disk)), r, FlPair(disk), on && ok)
      ensures on && !ok ==> WriteHistory in refuses
    {
      ok := false;
      if !on { return; }
      if * { on := false; return; }
      if WriteHistory in refuses { if * { return; } }
      var k: nat :| k <= 28;
      if k < 28 && WriteHistory !in refuses { on := false; }
      FailurePrefix(r, k);
      var data := EncodeFailure(r)[..k];
      disk := if UsesA(r.writes) then disk.(flA := data) else disk.(flB := data);
      ok := k == 28;
      if * { on := false; }
    }
  }

  /** The checkpoint slot that a record with this counter goes to. */
  function SlotFile(d: Disk, writes: u32): bytes
  {
    if UsesA(writes) then d.ckA else d.ckB
  }

  /** The bytes a checkpoint write leaves: the record in the slot its counter selects, or, if power was cut,
      that slot as it was or unreadable; nothing else changes. */
  predicate SlotWritten(d: Disk, r: Rec<Checkpoint>, d': Disk, on: bool)
  {
    var mine, mine' := SlotFile(d, r.writes), SlotFile(d', r.writes);
    && d' == (if UsesA(r.writes) then d.(ckA := mine') else d.(ckB := mine'))
    && (mine' == EncodeCheckpoint(r) || (!on && (mine' == mine || LoadEither(mine') == None)))
  }

  function Touched(d: Disk, seg: nat): Disk
  {
    d.(segs := d.segs[seg := FileOf(d.segs, seg)])
  }

  function Truncated(d: Disk, seg: nat, size: nat): Disk
    requires size <= |FileOf(d.segs, seg)|
  {
    d.(segs := d.segs[seg := FileOf(d.segs, seg)[..size]])
  }

  lemma EmptyUnreadable()
    ensures LoadEither([]) == None
  {
    CheckpointSizes();
  }

}
