/** What the queue's operations mean on the raw contents of the flash, whatever state it is in. */
module QueueSpec {
  import opened Bytes
  import opened Records
  import opened PingPong
  import opened Storage

  const SEG_ROWS := 5000
  const SEG_BYTES := 180000   // SEG_ROWS rows
  const ZERO_ACK := Ack(0, 0, 0, 0)
  const ZERO_FAILURE := Failure(0, 0, 0, 0)
  const MAX_SWEEP := 32

  const OPEN_FAILED := 1
  const TRUNCATE_FAILED := 2
  const WRITE_SHORT := 3

  /** A position in the segmented log. */
  datatype Pos = Pos(seg: nat, off: nat)

  /** The device as the queue sees it: flash contents, power, and what it holds in memory.
      The memory part means nothing once power is gone. */
  datatype Dev = Dev(
    segs: map<nat, bytes>, ck: Pair<Checkpoint>, ak: Pair<Ack>, fl: Pair<Failure>, on: bool,
    cp: Rec<Checkpoint>, ack: Rec<Ack>, fail: Rec<Failure>, unacked: nat)
  {
    /** Everything before this position is confirmed. */
    function Frontier(): Pos
    {
      Pos(cp.body.qSegment, cp.body.qOffset)
    }

    /** Everything before this position is acknowledged. */
    function Cursor(): Pos
    {
      Pos(ack.body.cursorSegment, ack.body.cursorOffset)
    }
  }

  /** The position in the log of the first row of a segment: SEG_ROWS rows per segment before it. */
  function FirstRow(seg: nat): nat
  {
    5000 * seg
  }

  function Wrap32(x: nat): u32
  {
    x % 0x1_0000_0000
  }

  // --- reading ---------------------------------------------------------------------------

  function Cell(file: bytes, off: nat): bytes
    requires off + ROW <= |file|
  {
    file[off..off + ROW]
  }

  /** Whether a whole cell can be read at `off` without passing `limit` or the end of the file. */
  predicate Readable(file: bytes, off: nat, limit: nat)
  {
    off + ROW <= limit && off + ROW <= |file|
  }

  /** How far a segment may be read: the confirmed offset in the active one, the whole file below it. */
  function Limit(segs: map<nat, bytes>, seg: nat, frontier: Pos): nat
    requires seg in segs
  {
    if seg == frontier.seg then frontier.off else |segs[seg]|
  }

  /** The valid rows of a segment with seq above `acked`, in order. */
  function ScanFile(file: bytes, off: nat, limit: nat, acked: nat): seq<Row>
    decreases if off <= limit then limit - off else 0
  {
    if !Readable(file, off, limit) then []
    else
      var rest := ScanFile(file, off + ROW, limit, acked);
      match ReadRow(Cell(file, off))
      case None => rest
      case Some(r) => if r.seqNo <= acked then rest else [r] + rest
  }

  /** The same across segments, up to the first missing one. */
  function ScanLog(segs: map<nat, bytes>, seg: nat, off: nat, frontier: Pos, acked: nat): seq<Row>
    decreases if seg <= frontier.seg then frontier.seg - seg + 1 else 0
  {
    if seg > frontier.seg || seg !in segs then []
    else
      var limit := Limit(segs, seg, frontier);
      var here := ScanFile(segs[seg], Min(off, limit), limit, acked);
      if seg == frontier.seg then here else here + ScanLog(segs, seg + 1, 0, frontier, acked)
  }

  function Backlog(q: Dev): seq<Row>
  {
    ScanLog(q.segs, q.Cursor().seg, q.Cursor().off, q.Frontier(), q.ack.body.acked)
  }

  // --- acknowledging ------------------------------------------------------------------------

  /** The number of cells before the first valid row with seq above `ack`; unreadable cells are passed over. */
  function PassedCells(file: bytes, off: nat, limit: nat, ack: nat): (cells: nat)
    ensures off <= limit ==> off + RowBytes(cells) <= limit
    decreases if off <= limit then limit - off else 0
  {
    if !Readable(file, off, limit) then 0
    else
      match ReadRow(Cell(file, off))
      case None => 1 + PassedCells(file, off + ROW, limit, ack)
      case Some(r) => if r.seqNo <= ack then 1 + PassedCells(file, off + ROW, limit, ack) else 0
  }

  /** Where a cumulative acknowledgement moves the cursor, and how many cells it passes. */
  datatype Walk = Walk(pos: Pos, cells: nat)

  function WalkLog(segs: map<nat, bytes>, seg: nat, off: nat, frontier: Pos, ack: nat): (w: Walk)
    ensures seg <= frontier.seg ==> seg <= w.pos.seg <= frontier.seg
    decreases if seg <= frontier.seg then frontier.seg - seg + 1 else 0
  {
    if seg > frontier.seg || seg !in segs then Walk(Pos(seg, off), 0)
    else
      var limit := Limit(segs, seg, frontier);
      var start := Min(off, limit);
      var cells := PassedCells(segs[seg], start, limit, ack);
      var end := start + RowBytes(cells);
      if seg < frontier.seg && end >= limit then
        var w := WalkLog(segs, seg + 1, 0, frontier, ack);
        w.(cells := cells + w.cells)
      else Walk(Pos(seg, end), cells)
  }

  function SegmentRange(lo: nat, hi: nat): (r: set<nat>)
    ensures forall s :: s in r <==> lo <= s < hi
    decreases hi - lo
  {
    if lo < hi then {lo} + SegmentRange(lo + 1, hi) else {}
  }

  /** The effect of ackThrough: the cursor record is made durable before anything is removed, and only
      segments the walk has left behind are removed. */
  ghost predicate AckSpec(q: Dev, ackedSeq: u32, boot: u32, q': Dev)
  {
    if ackedSeq <= q.ack.body.acked then q' == q
    else
      var w := WalkLog(q.segs, q.Cursor().seg, q.Cursor().off, q.Frontier(), ackedSeq);
      var passed := SegmentRange(q.Cursor().seg, w.pos.seg);
      && q'.ack == Next(q.ack, Ack(ackedSeq, boot, Wrap32(w.pos.seg), Wrap32(w.pos.off)))
      && q'.unacked == (if w.cells <= q.unacked then q.unacked - w.cells else 0)
      && Persisted(q.ak, q'.ack, q'.ak, q'.on)
      && (q'.segs == q.segs || q'.ak == Put(q.ak, q'.ack))
      && q.segs.Keys - passed <= q'.segs.Keys
      && (q'.on ==> q'.segs.Keys == q.segs.Keys - passed)
      && q'.segs.Keys <= q.segs.Keys
      && (forall s :: s in q'.segs ==> q'.segs[s] == q.segs[s])
      && q'.ck == q.ck && q'.fl == q.fl && q'.cp == q.cp && q'.fail == q.fail
  }

  // --- appending ----------------------------------------------------------------------------

  /** Where the next row goes: a full active segment rolls over to the next one. */
  function Target(cp: Checkpoint): Pos
  {
    if cp.qOffset >= SEG_BYTES then Pos(Inc32(cp.qSegment), 0) else Pos(cp.qSegment, cp.qOffset)
  }

  /** The length of the longest run of valid rows starting at `off`. */
  function ValidRows(file: bytes, off: nat): (rows: nat)
    ensures off <= |file| ==> off + RowBytes(rows) <= |file|
    decreases if off <= |file| then |file| - off else 0
  {
    if off + ROW <= |file| && ReadRow(Cell(file, off)).Some? then 1 + ValidRows(file, off + ROW) else 0
  }

  /** How much of the target file is kept before a row is written: never more than one row past the
      checkpoint is discarded unread; what lies beyond is kept as far as it is valid rows (as far as
      the reads got, when a read fails outright). */
  predicate KeepOk(file: bytes, good: nat, keep: nat, steady: bool)
  {
    if |file| <= good then keep == |file|
    else if |file| - good <= ROW then keep == good
    else
      && good <= keep <= good + RowBytes(ValidRows(file, good)) && (keep - good) % ROW == 0
      && (steady ==> keep == good + RowBytes(ValidRows(file, good)))
  }

  function IdealKeep(file: bytes, good: nat): nat
  {
    if |file| <= good then |file| else if |file| - good <= ROW then good else good + RowBytes(ValidRows(file, good))
  }

  lemma IdealKeepOk(file: bytes, good: nat, steady: bool)
    ensures IdealKeep(file, good) <= |file| && KeepOk(file, good, IdealKeep(file, good), steady)
  {
    hide ReadRow;
  }

  function CountFailure(f: Failure, uptime: u32, code: u32): Failure
  {
    Failure(Inc32(f.count), if f.count == 0 then uptime else f.firstS, uptime, code)
  }

  /** A failed write: when, in seconds since boot, and which operation. */
  datatype Fault = Fault(at: u32, code: u32)

  /** The failure history after some failed writes. */
  function History(faults: seq<Fault>): Failure
    decreases |faults|
  {
    if faults == [] then ZERO_FAILURE
    else CountFailure(History(faults[..|faults| - 1]), faults[|faults| - 1].at, faults[|faults| - 1].code)
  }

  /** It counts them, keeps the time of the first, and the time and the operation of the last. */
  lemma {:induction false} HistoryKeepsFirstAndLast(faults: seq<Fault>)
    requires 0 < |faults| <= U32_MAX
    ensures var h, last := History(faults), faults[|faults| - 1];
      h.count == |faults| && h.firstS == faults[0].at && h.lastS == last.at && h.code == last.code
    decreases |faults|
  {
    if |faults| > 1 {
      HistoryKeepsFirstAndLast(faults[..|faults| - 1]);
    } else {
      assert History(faults[..0]) == ZERO_FAILURE;
    }
  }

  /** The row is durable and the checkpoint covers it. */
  ghost predicate Confirmed(q: Dev, row: Row, keep: nat, q': Dev)
    requires keep <= |FileOf(q.segs, Target(q.cp.body).seg)|
  {
    var seg := Target(q.cp.body).seg;
    && q'.segs == q.segs[seg := FileOf(q.segs, seg)[..keep] + EncodeRow(row)]
    && q'.cp == Next(q.cp, ConfirmedUpTo(q.cp.body, seg, Wrap32(keep + ROW)))
    && q'.ck == Put(q.ck, q'.cp)
    && q'.fl == q.fl && q'.fail == q.fail && q'.ak == q.ak && q'.ack == q.ack
    && (q'.on ==> q'.unacked == q.unacked + 1)
  }

  /** The row is not covered by the checkpoint: at most it, or a beginning of it, lies past the kept bytes. */
  ghost predicate Unconfirmed(q: Dev, row: Row, uptime: u32, keep: nat, q': Dev)
    requires keep <= |FileOf(q.segs, Target(q.cp.body).seg)|
  {
    var seg := Target(q.cp.body).seg;
    var file := FileOf(q.segs, seg);
    && (q'.segs == q.segs ||
        (seg in q'.segs && q'.segs == q.segs[seg := q'.segs[seg]] &&
         (q'.segs[seg] == file || file[..keep] <= q'.segs[seg] <= file[..keep] + EncodeRow(row))))
    && (q'.ck == q.ck || (!q'.on && q'.ck == Tear(q.ck, Inc32(q.cp.writes))))
    && (q'.on ==> q'.cp == q.cp && q'.unacked == q.unacked)
    && q'.ak == q.ak && q'.ack == q.ack
    && if q'.fail == q.fail then q'.fl == q.fl && !q'.on
       else
         && q'.fail == Next(q.fail, CountFailure(q.fail.body, uptime, q'.fail.body.code))
         && Persisted(q.fl, q'.fail, q'.fl, false) && q'.ck == q.ck
         && match q'.fail.body.code
            case 1 => q'.segs == q.segs
            case 2 => q'.segs == q.segs[seg := file] && keep < |file|
            case 3 => seg in q'.segs && file[..keep] <= q'.segs[seg] <= file[..keep] + EncodeRow(row)
            case _ => false
  }

  ghost predicate AppendWith(q: Dev, row: Row, uptime: u32, confirmed: bool, keep: nat, steady: bool, q': Dev)
  {
    var t := Target(q.cp.body);
    && KeepOk(FileOf(q.segs, t.seg), t.off, keep, steady)
    && keep <= |FileOf(q.segs, t.seg)|
    && if confirmed then Confirmed(q, row, keep, q') else Unconfirmed(q, row, uptime, keep, q')
  }

  /** The effect of append, confirmed or not, power cut or not. */
  ghost predicate AppendSpec(q: Dev, row: Row, uptime: u32, confirmed: bool, steady: bool, q': Dev)
  {
    exists keep :: AppendWith(q, row, uptime, confirmed, keep, steady, q')
  }

  // --- booting ------------------------------------------------------------------------------

  /** Boot finds segments further ahead than an interrupted rollover can explain. */
  ghost predicate Regressed(segs: map<nat, bytes>, active: u32)
  {
    exists s :: s in segs && s > Inc32(active)
  }

  ghost predicate IsHighest(segs: map<nat, bytes>, top: nat)
  {
    top in segs && forall s :: s in segs ==> s <= top
  }

  /** Segments the boot sweep may remove: past the active one, or below the cursor. */
  predicate Sweepable(active: nat, cursor: nat, seg: nat)
  {
    seg > active || seg < cursor
  }

  /** The reconciliation of segments with the recovered positions. */
  ghost predicate SweepSpec(q: Dev, steady: bool, q': Dev)
  {
    && q'.ak == q.ak && q'.ack == q.ack && q'.fl == q.fl && q'.fail == q.fail && q'.unacked == q.unacked
    && if Regressed(q.segs, q.cp.body.qSegment) then
         && q'.segs == q.segs
         && ((!q'.on && q'.cp == q.cp && q'.ck == q.ck) || exists top, end :: Adopted(q, top, end, steady, q'))
       else q'.cp == q.cp && q'.ck == q.ck && Swept(q, q')
  }

  /** Only sweepable segments go, at most MAX_SWEEP of them, and fewer only when none is left. */
  ghost predicate Swept(q: Dev, q': Dev)
  {
    var gone := q.segs.Keys - q'.segs.Keys;
    && q'.segs.Keys <= q.segs.Keys
    && (forall s :: s in q'.segs ==> q'.segs[s] == q.segs[s])
    && (forall s :: s in gone ==> Sweepable(q.cp.body.qSegment, q.ack.body.cursorSegment, s))
    && |gone| <= MAX_SWEEP
    && (q'.on && |gone| < MAX_SWEEP ==>
          forall s :: s in q'.segs ==> !Sweepable(q.cp.body.qSegment, q.ack.body.cursorSegment, s))
  }

  /** The highest segment becomes the active one, confirmed as far as it holds valid rows. */
  ghost predicate Adopted(q: Dev, top: nat, end: nat, steady: bool, q': Dev)
  {
    && IsHighest(q.segs, top) && end <= RowBytes(ValidRows(q.segs[top], 0)) && end % ROW == 0
    && (steady && q'.on ==> end == RowBytes(ValidRows(q.segs[top], 0)))
    && q'.cp == Next(q.cp, ConfirmedUpTo(q.cp.body, Wrap32(top), Wrap32(end)))
    && Persisted(q.ck, q'.cp, q'.ck, q'.on)
  }

  /** From loaded checkpoint to a running queue. */
  ghost predicate BeginSpec(q: Dev, steady: bool, q': Dev)
  {
    exists listed: bool, m: Dev :: BeginVia(q, steady, listed, m, q')
  }

  /** `m` is the device after the acknowledgement record was recovered and, if the directory could be
      `listed`, segments were reconciled. */
  ghost predicate BeginVia(q: Dev, steady: bool, listed: bool, m: Dev, q': Dev)
  {
    var recovered := q.(ack := Newest(q.ak, ZERO_ACK));
    && (if listed then SweepSpec(recovered, steady, m) else m == recovered)
    && (if m.on then q' == m.(fail := Newest(q.fl, ZERO_FAILURE), unacked := |Backlog(m)|) else q' == m)
  }
}
