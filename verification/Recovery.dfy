/** When the checkpoint has gone backwards: what append and boot recover, and exactly what they lose. */
module Recovery {
  import opened Bytes
  import opened Records
  import opened PingPong
  import opened Storage
  import opened QueueSpec
  import opened QueueLog
  import opened QueueInvariant

  // --- the scan ----------------------------------------------------------------------------------------------

  /** The scan keeps every row up to the first cell that is not a valid row, and nothing from there on. */
  lemma {:induction false} ScanStopsAtFirstInvalid(file: bytes, off: nat)
    requires off <= |file|
    ensures var n := ValidRows(file, off);
      && (forall i :: 0 <= i < n ==> ReadRow(Cell(file, off + RowBytes(i))).Some?)
      && (off + RowBytes(n + 1) <= |file| ==> ReadRow(Cell(file, off + RowBytes(n))) == None)
    decreases |file| - off
  {
    hide ReadRow;
    var n := ValidRows(file, off);
    if n > 0 {
      ScanStopsAtFirstInvalid(file, off + ROW);
      forall i | 0 <= i < n
        ensures ReadRow(Cell(file, off + RowBytes(i))).Some?
      {
        if i > 0 {
          assert off + RowBytes(i) == off + ROW + RowBytes(i - 1);
        }
      }
      assert off + RowBytes(n) == off + ROW + RowBytes(n - 1);
    }
  }

  // --- append ------------------------------------------------------------------------------

  /** A segment holds `rows`, the checkpoint claims only the first `m`. Truncate-before-append keeps all
      of them unless exactly one row's worth of bytes, or less, lies past the checkpoint. */
  lemma RowsKeptExactly(file: bytes, rows: seq<Row>, m: nat, keep: nat)
    requires Holds(file, rows) && m <= |rows| && KeepOk(file, RowBytes(m), keep, true)
    ensures RowBytes(|rows|) <= keep <==> m == |rows| || |file| > RowBytes(m) + ROW
    ensures RowBytes(|rows|) <= keep <= |file| ==> Holds(file[..keep], rows)
  {
    hide Holds, ValidRows, EncodeRow;
    HoldsSize(file, rows);
    ValidHolds(file, rows, m);
    if RowBytes(|rows|) <= keep <= |file| {
      assert file[..RowBytes(|rows|)] <= file[..keep];
      HoldsSamePrefix(file, file[..keep], rows);
    }
  }

  /** With steady reads and more than one row past the checkpoint, no append, finished or cut, loses a
      row, and a confirmed one puts the checkpoint past all of them. */
  lemma AppendAfterRegression(q: Dev, rows: seq<Row>, m: nat, row: Row, uptime: u32, confirmed: bool, q': Dev)
    requires var t := Target(q.cp.body);
      && Holds(FileOf(q.segs, t.seg), rows) && m <= |rows| && t.off == RowBytes(m)
      && RowBytes(m) + ROW < |FileOf(q.segs, t.seg)| < 0x8000_0000
    requires AppendSpec(q, row, uptime, confirmed, true, q')
    ensures Holds(FileOf(q'.segs, Target(q.cp.body).seg), rows)
    ensures confirmed ==> q'.Frontier().seg == Target(q.cp.body).seg && q'.Frontier().off >= RowBytes(|rows|) + ROW
  {
    hide Holds, KeepOk, EncodeRow, ValidRows;
    var t := Target(q.cp.body);
    var file := FileOf(q.segs, t.seg);
    var keep: nat :| AppendWith(q, row, uptime, confirmed, keep, true, q');
    RowsKeptExactly(file, rows, m, keep);
    HoldsSize(file, rows);
    var file' := FileOf(q'.segs, t.seg);
    if file' != file {
      assert file[..keep] <= file';
      HoldsSize(file[..keep], rows);
      assert file[..keep][..RowBytes(|rows|)] <= file';
      HoldsSamePrefix(file[..keep], file', rows);
    }
  }

  // --- boot ----------------------------------------------------------------------------------

  /** Flash stores the log with true frontier `f`, but the recovered checkpoint is at an earlier segment. */
  ghost predicate WentBack(q: Dev, log: seq<Row>, f: Pos)
  {
    && Stored(q.segs, log, f, q.ack.body.cursorSegment) && Ascending(log) && |log| <= U32_MAX
    && CursorOk(log, q.ack.body, f)
    && f.off > 0 && q.cp.body.qSegment <= f.seg
  }

  /** Exactly when boot recognises it. */
  lemma RegressionSeenExactly(q: Dev, log: seq<Row>, f: Pos)
    requires WentBack(q, log, f)
    ensures Regressed(q.segs, q.cp.body.qSegment) <==>
      f.seg > q.cp.body.qSegment + 1 || (f.seg == q.cp.body.qSegment + 1 && f.seg + 1 in q.segs)
    ensures f.seg in q.segs
  {
    hide ClosedSegment, ActiveSegment, CursorOk, Ascending;
    StoredPos(q.segs, log, f, q.ack.body.cursorSegment);
    FrontierSmall(log, f);
    CursorBelowFrontier(log, q.ack.body, f);
  }

  /** When it does, it deletes nothing and the new frontier takes in every confirmed row: reading on from
      the cursor returns all unacknowledged rows, in order, before anything else. */
  lemma BootAfterRegression(q: Dev, log: seq<Row>, f: Pos, q': Dev)
    requires WentBack(q, log, f) && Regressed(q.segs, q.cp.body.qSegment)
    requires SweepSpec(q, true, q') && q'.on
    ensures q'.segs == q.segs
    ensures Unacked(log, q.ack.body.acked) <= Backlog(q')
  {
    hide Stored, CursorOk, Ascending, ScanLog, Unacked, ValidRows, EncodeRow, Regressed, Swept, Persisted, SegRows;
    hide CursorIndex;
    var top, end :| Adopted(q, top, end, true, q');
    FrontierSmall(log, f) by { StoredPos(q.segs, log, f, q.ack.body.cursorSegment); }
    TopSegment(q, log, f, top);
    NewFrontier(q.segs, log, f, q.ack.body.cursorSegment, top, end);
    CursorBelowFrontier(log, q.ack.body, f);
    var j := CursorIndex(AckPos(q.ack.body)) - FirstRow(q.ack.body.cursorSegment);
    CursorInSegment(log, q.ack.body, f, q.segs);
    assert q'.Frontier() == Pos(top, end);
    ScanFurther(q.segs, log, f, q.ack.body.cursorSegment, Pos(top, end), q.ack.body.cursorSegment, j, q.ack.body.acked);
    ScanFromCursor(q.segs, log, f, q.ack.body);
    UnackedFromCursor(log, q.ack.body, f);
  }

  lemma TopSegment(q: Dev, log: seq<Row>, f: Pos, top: nat)
    requires WentBack(q, log, f) && IsHighest(q.segs, top)
    ensures top == f.seg || (top == f.seg + 1 && f.off == SEG_BYTES && |q.segs[top]| <= ROW)
  {
    hide ClosedSegment, ActiveSegment, CursorOk, Ascending;
    CursorBelowFrontier(log, q.ack.body, f);
    StoredPos(q.segs, log, f, q.ack.body.cursorSegment);
  }

  /** A frontier that takes in all of a stored log, and little more. */
  ghost predicate Covers(segs: map<nat, bytes>, f: Pos, p: Pos)
  {
    && p.seg in segs && p.off <= |segs[p.seg]| <= SEG_BYTES + ROW
    && if p.seg == f.seg then f.off <= p.off else p.seg == f.seg + 1 && f.off == SEG_BYTES
  }

  lemma NewFrontier(segs: map<nat, bytes>, log: seq<Row>, f: Pos, low: nat, top: nat, end: nat)
    requires Stored(segs, log, f, low) && top in segs && end == RowBytes(ValidRows(segs[top], 0))
    requires top == f.seg || (top == f.seg + 1 && f.off == SEG_BYTES && |segs[top]| <= ROW)
    ensures Covers(segs, f, Pos(top, end)) && end < 0x1_0000_0000
  {
    hide ClosedSegment, Holds;
    if top == f.seg {
      SegRowsSize(log, f, f.seg);
      ValidHolds(segs[top], SegRows(log, f.seg), 0);
    }
  }

  /** Scanning to a frontier that covers the log's returns the same rows first. */
  lemma {:induction false} ScanFurther(segs: map<nat, bytes>, log: seq<Row>, f: Pos, low: nat, p: Pos, s: nat, j: nat,
                                       acked: nat)
    requires Stored(segs, log, f, low) && Covers(segs, f, p) && low <= s <= f.seg && j <= |SegRows(log, s)|
    ensures ScanLog(segs, s, RowBytes(j), f, acked) <= ScanLog(segs, s, RowBytes(j), p, acked)
    decreases f.seg - s
  {
    hide Stored, Holds, ScanFile, SegRows;
    if s in segs {
      StoredSegment(segs, log, f, low, s);
      if s < f.seg {
        ScanFurther(segs, log, f, low, p, s + 1, 0, acked);
      } else {
        HoldsSize(segs[s], SegRows(log, s));
        ScanFileFurther(segs[s], RowBytes(j), f.off, if s == p.seg then p.off else |segs[s]|, acked);
      }
    }
  }

  lemma {:induction false} ScanFileFurther(file: bytes, off: nat, limit: nat, limit': nat, acked: nat)
    requires off <= limit <= limit' && limit <= |file|
    ensures ScanFile(file, off, limit, acked) <= ScanFile(file, off, limit', acked)
    decreases limit - off
  {
    hide ReadRow;
    if Readable(file, off, limit) {
      ScanFileFurther(file, off + ROW, limit, limit', acked);
    }
  }

  /** What boot does with the log's last segment in every case: with a sweep list that is not full, it is
      lost exactly when the checkpoint is one segment behind and nothing lies past it. */
  lemma LastSegmentLostExactly(q: Dev, log: seq<Row>, f: Pos, steady: bool, q': Dev)
    requires WentBack(q, log, f) && SweepSpec(q, steady, q') && q'.on
    requires |StraySegments(q.segs, q.cp.body.qSegment, q.ack.body.cursorSegment)| <= MAX_SWEEP
    ensures f.seg !in q'.segs <==> f.seg == q.cp.body.qSegment + 1 && f.seg + 1 !in q.segs
    ensures SegRows(log, f.seg) != []
  {
    hide Stored, CursorOk, Ascending, Adopted, SegRows, Swept, StraySegments;
    RegressionSeenExactly(q, log, f);
    CursorBelowFrontier(log, q.ack.body, f);
    StoredPos(q.segs, log, f, q.ack.body.cursorSegment);
    SegRowsSize(log, f, f.seg);
    FrontierSmall(log, f);
    if !Regressed(q.segs, q.cp.body.qSegment) {
      SweptCount(q, q');
      assert f.seg in q'.segs <==> f.seg in q'.segs.Keys;
    }
  }

  // --- a short read --------------------------------------------------------------------------------------

  /** What `pending` returns when a read of the cursor's segment, not the active one, comes back short at
      `stop`: the rows before it, then the segments after this one. */
  function ScanCutShort(q: Dev, stop: nat): seq<Row>
  {
    var c, acked := q.Cursor(), q.ack.body.acked;
    ScanFile(FileOf(q.segs, c.seg), c.off, stop, acked) + ScanLog(q.segs, c.seg + 1, 0, q.Frontier(), acked)
  }

  /** Such a read makes a hole: the rest of the segment is passed over and later rows follow, so an
      acknowledgement of the last one covers rows that were never sent. This is why complete reads are a
      hypothesis of everything said about `pending`. */
  lemma ShortReadSkips(q: Dev, log: seq<Row>, j: nat)
    requires Inv(q, log) && q.on && q.Cursor().seg < q.Frontier().seg
    requires CursorIndex(q.Cursor()) <= j < FirstRow(q.Cursor().seg + 1)
    ensures var s := q.Cursor().seg;
      var next := FirstRow(s + 1);
      && FirstRow(s) <= j < next < |log|
      && ScanCutShort(q, RowBytes(j - FirstRow(s))) == log[CursorIndex(q.Cursor())..j] + log[next..]
      && (forall i :: j <= i < next ==> log[i].seqNo <= log[|log| - 1].seqNo)
  {
    hide Stored, CursorOk, Ascending, Sound, ScanFile, ScanLog, CursorIndex;
    var s := q.Cursor().seg;
    StoredPos(q.segs, log, q.Frontier(), s);
    SegmentHeld(q.segs, log, q.Frontier(), s);
    CursorFacts(log, q.ack.body, q.Frontier());
    ScanBefore(q.segs, log, q.Frontier(), q.ack.body, j);
    ScanStored(q.segs, log, q.Frontier(), s, s + 1, 0, q.ack.body.acked);
    UnackedAll(log[FirstRow(s + 1)..], q.ack.body.acked);
    LastLargest(log);
  }

  lemma CursorFacts(log: seq<Row>, a: Ack, p: Pos)
    requires CursorOk(log, a, p)
    ensures var c := CursorIndex(AckPos(a));
      && FirstRow(a.cursorSegment) <= c <= |log| && a.cursorOffset == RowBytes(c - FirstRow(a.cursorSegment))
      && (forall i :: c <= i < |log| ==> log[i].seqNo > a.acked)
  {
  }

  lemma LastLargest(log: seq<Row>)
    requires Ascending(log) && log != []
    ensures forall i :: 0 <= i < |log| ==> log[i].seqNo <= log[|log| - 1].seqNo
  {
  }

  /** The rows from the cursor to row `j` of its segment. */
  lemma ScanBefore(segs: map<nat, bytes>, log: seq<Row>, p: Pos, a: Ack, j: nat)
    requires Stored(segs, log, p, a.cursorSegment) && CursorOk(log, a, p) && a.cursorSegment < p.seg
    requires CursorIndex(AckPos(a)) <= j < FirstRow(a.cursorSegment + 1) <= |log| && FirstRow(a.cursorSegment) <= j
    ensures ScanFile(FileOf(segs, a.cursorSegment), a.cursorOffset, RowBytes(j - FirstRow(a.cursorSegment)), a.acked)
      == log[CursorIndex(AckPos(a))..j]
  {
    hide Stored, CursorOk, Holds, ScanFile, Unacked, SegRows, CursorIndex;
    var s, c := a.cursorSegment, CursorIndex(AckPos(a));
    CursorFacts(log, a, p);
    StoredPos(segs, log, p, s);
    SegmentHeld(segs, log, p, s);
    StoredSegment(segs, log, p, s, s);
    RowsOfSegment(segs[s], log, s, j);
    var part := log[FirstRow(s)..j];
    ScanHolds(segs[s], part, c - FirstRow(s), a.acked);
    assert part[c - FirstRow(s)..] == log[c..j];
    UnackedAll(log[c..j], a.acked);
  }

  lemma SegmentHeld(segs: map<nat, bytes>, log: seq<Row>, p: Pos, s: nat)
    requires Stored(segs, log, p, s) && s < p.seg
    ensures s in segs && FirstRow(s + 1) < |log|
  {
    hide ClosedSegment, ActiveSegment;
  }

  lemma RowsOfSegment(file: bytes, log: seq<Row>, s: nat, j: nat)
    requires Holds(file, SegRows(log, s)) && FirstRow(s) <= j <= FirstRow(s) + SEG_ROWS && j <= |log|
    ensures Holds(file, log[FirstRow(s)..j])
  {
    hide EncodeRow;
    assert forall i :: 0 <= i < j - FirstRow(s) ==> log[FirstRow(s)..j][i] == SegRows(log, s)[i];
  }
}
