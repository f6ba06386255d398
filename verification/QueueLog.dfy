/** The queue's flash contents as one log: the rows ever confirmed, in append order. */
module QueueLog {
  import opened Bytes
  import opened Records
  import opened QueueSpec

  // --- the log ---------------------------------------------------------------------------

  /** The rows of a log that an acknowledgement through `acked` leaves to be delivered. */
  function Unacked(log: seq<Row>, acked: nat): seq<Row>
  {
    if log == [] then []
    else if log[0].seqNo <= acked then Unacked(log[1..], acked)
    else [log[0]] + Unacked(log[1..], acked)
  }

  /** How many rows at the front are acknowledged. */
  function Leading(log: seq<Row>, acked: nat): (n: nat)
    ensures n <= |log| && (forall i :: 0 <= i < n ==> log[i].seqNo <= acked)
    ensures n < |log| ==> log[n].seqNo > acked
  {
    if log == [] || log[0].seqNo > acked then 0 else 1 + Leading(log[1..], acked)
  }

  /** Sequence numbers never go down; a number may repeat, as it does when power is cut between a row's
      checkpoint and the number's. */
  ghost predicate Ascending(log: seq<Row>)
  {
    && (forall i :: 0 <= i < |log| ==> 0 < log[i].seqNo)
    && (forall i, j :: 0 <= i < j < |log| ==> log[i].seqNo <= log[j].seqNo)
  }

  // --- damage ----------------------------------------------------------------------------

  /** The two files differ at most in the cell at `at`. */
  predicate SameBut(file: bytes, file': bytes, at: nat)
  {
    at + ROW <= |file| == |file'| && file'[..at] == file[..at] && file'[at + ROW..] == file[at + ROW..]
  }

  /** An unreadable cell hides no other: the rest of the segment is returned as before, and an acknowledgement
      that reaches the cell passes over it as if its row had been acknowledged. */
  lemma {:induction false} DamageIsLocal(file: bytes, file': bytes, off: nat, limit: nat, acked: nat, k: nat)
    requires SameBut(file, file', off + RowBytes(k)) && off + RowBytes(k + 1) <= limit
    requires ReadRow(Cell(file', off + RowBytes(k))) == None
    ensures ScanFile(file', off, limit, acked)
      == ScanFile(file, off, off + RowBytes(k), acked) + ScanFile(file, off + RowBytes(k + 1), limit, acked)
    ensures var cells := PassedCells(file, off, off + RowBytes(k), acked);
      PassedCells(file', off, limit, acked)
      == if cells < k then cells else k + 1 + PassedCells(file, off + RowBytes(k + 1), limit, acked)
    decreases k
  {
    hide ReadRow;
    if k == 0 {
      SameBehind(file, file', off, off + ROW, limit, acked);
    } else {
      assert Cell(file, off) == file[..off + RowBytes(k)][off..off + ROW];
      assert Cell(file', off) == file'[..off + RowBytes(k)][off..off + ROW];
      DamageIsLocal(file, file', off + ROW, limit, acked, k - 1);
    }
  }

  lemma {:induction false} SameBehind(file: bytes, file': bytes, at: nat, off: nat, limit: nat, acked: nat)
    requires SameBut(file, file', at) && at + ROW <= off
    ensures ScanFile(file', off, limit, acked) == ScanFile(file, off, limit, acked)
    ensures PassedCells(file', off, limit, acked) == PassedCells(file, off, limit, acked)
    decreases if off <= limit then limit - off else 0
  {
    hide ReadRow;
    if Readable(file, off, limit) {
      var i := off - (at + ROW);
      assert Cell(file, off) == file[at + ROW..][i..i + ROW] && Cell(file', off) == file'[at + ROW..][i..i + ROW];
      SameBehind(file, file', at, off + ROW, limit, acked);
    }
  }

  function Below(segs: map<nat, bytes>, s: nat): map<nat, bytes>
  {
    map t | t in segs && t < s :: segs[t]
  }

  /** A missing segment ends both the reading and the walk of an acknowledgement: what lies behind it might as
      well not exist. */
  lemma {:induction false} MissingSegmentStops(segs: map<nat, bytes>, seg: nat, off: nat, frontier: Pos,
                                               acked: nat, s: nat)
    requires seg <= s <= frontier.seg && s !in segs
    ensures ScanLog(segs, seg, off, frontier, acked) == ScanLog(Below(segs, s), seg, off, frontier, acked)
    ensures WalkLog(segs, seg, off, frontier, acked) == WalkLog(Below(segs, s), seg, off, frontier, acked)
    ensures WalkLog(segs, seg, off, frontier, acked).pos.seg <= s
    decreases s - seg
  {
    hide ScanFile, PassedCells;
    if seg < s && seg in segs {
      MissingSegmentStops(segs, seg + 1, 0, frontier, acked, s);
    }
  }

  // --- the log's rows -----------------------------------------------------------------------

  lemma {:induction false} UnackedSplit(a: seq<Row>, b: seq<Row>, acked: nat)
    ensures Unacked(a + b, acked) == Unacked(a, acked) + Unacked(b, acked)
  {
    if a == [] {
      assert a + b == b;
    } else {
      assert (a + b)[1..] == a[1..] + b;
      UnackedSplit(a[1..], b, acked);
    }
  }

  lemma {:induction false} UnackedNone(log: seq<Row>, acked: nat)
    requires forall i :: 0 <= i < |log| ==> log[i].seqNo <= acked
    ensures Unacked(log, acked) == []
  {
    if log != [] {
      UnackedNone(log[1..], acked);
    }
  }

  lemma {:induction false} UnackedAll(log: seq<Row>, acked: nat)
    requires forall i :: 0 <= i < |log| ==> log[i].seqNo > acked
    ensures Unacked(log, acked) == log
  {
    if log != [] {
      UnackedAll(log[1..], acked);
    }
  }

  lemma {:induction false} LeadingSplit(a: seq<Row>, b: seq<Row>, acked: nat)
    ensures Leading(a + b, acked) == if Leading(a, acked) == |a| then |a| + Leading(b, acked) else Leading(a, acked)
  {
    if a == [] {
      assert a + b == b;
    } else {
      assert (a + b)[1..] == a[1..] + b;
      LeadingSplit(a[1..], b, acked);
    }
  }

  // --- one segment -------------------------------------------------------------------------

  /** The file starts with exactly these rows. */
  ghost predicate Holds(file: bytes, rows: seq<Row>)
  {
    RowBytes(|rows|) <= |file| && forall i :: 0 <= i < |rows| ==> Cell(file, RowBytes(i)) == EncodeRow(rows[i])
  }

  lemma HoldsReads(file: bytes, rows: seq<Row>, i: nat)
    requires Holds(file, rows) && i < |rows|
    ensures ReadRow(Cell(file, RowBytes(i))) == Some(rows[i])
  {
    hide ReadRow, EncodeRow;
    ReadEncodeRow(rows[i]);
  }

  lemma HoldsAppend(file: bytes, rows: seq<Row>, r: Row)
    requires Holds(file, rows) && |file| == RowBytes(|rows|)
    ensures Holds(file + EncodeRow(r), rows + [r])
  {
    hide EncodeRow;
    var bigger := file + EncodeRow(r);
    forall i | 0 <= i < |rows + [r]|
      ensures Cell(bigger, RowBytes(i)) == EncodeRow((rows + [r])[i])
    {
      if i < |rows| {
        assert Cell(bigger, RowBytes(i)) == Cell(file, RowBytes(i));
      }
    }
  }

  /** Only the bytes of the rows matter. */
  lemma HoldsSamePrefix(file: bytes, other: bytes, rows: seq<Row>)
    requires Holds(file, rows) && file[..RowBytes(|rows|)] <= other
    ensures Holds(other, rows)
  {
    hide EncodeRow;
    forall i | 0 <= i < |rows|
      ensures Cell(other, RowBytes(i)) == EncodeRow(rows[i])
    {
      CellOfPrefix(file, other, RowBytes(|rows|), RowBytes(i));
    }
  }

  lemma CellOfPrefix(file: bytes, other: bytes, n: nat, at: nat)
    requires n <= |file| && file[..n] <= other && at + ROW <= n
    ensures Cell(other, at) == Cell(file, at)
  {
    forall k | 0 <= k < ROW
      ensures Cell(other, at)[k] == Cell(file, at)[k]
    {
      assert other[at + k] == file[..n][at + k];
    }
  }

  lemma {:induction false} ScanHolds(file: bytes, rows: seq<Row>, j: nat, acked: nat)
    requires Holds(file, rows) && j <= |rows|
    ensures ScanFile(file, RowBytes(j), RowBytes(|rows|), acked) == Unacked(rows[j..], acked)
    decreases |rows| - j
  {
    hide ReadRow, EncodeRow;
    if j < |rows| {
      HoldsReads(file, rows, j);
      ScanHolds(file, rows, j + 1, acked);
      assert rows[j..][1..] == rows[j + 1..];
    }
  }

  lemma {:induction false} PassedHolds(file: bytes, rows: seq<Row>, j: nat, ack: nat)
    requires Holds(file, rows) && j <= |rows|
    ensures PassedCells(file, RowBytes(j), RowBytes(|rows|), ack) == Leading(rows[j..], ack)
    decreases |rows| - j
  {
    hide ReadRow, EncodeRow;
    if j < |rows| {
      HoldsReads(file, rows, j);
      PassedHolds(file, rows, j + 1, ack);
      assert rows[j..][1..] == rows[j + 1..];
    }
  }

  lemma {:induction false} ValidHolds(file: bytes, rows: seq<Row>, j: nat)
    requires Holds(file, rows) && j <= |rows|
    ensures ValidRows(file, RowBytes(j)) >= |rows| - j
    decreases |rows| - j
  {
    hide ReadRow, EncodeRow;
    if j < |rows| {
      HoldsReads(file, rows, j);
      ValidHolds(file, rows, j + 1);
    }
  }

  // --- the segmented log -----------------------------------------------------------------------

  /** The rows of the log that segment `s` holds. */
  function SegRows(log: seq<Row>, s: nat): seq<Row>
  {
    log[Min(FirstRow(s), |log|)..Min(FirstRow(s) + SEG_ROWS, |log|)]
  }

  /** `p` is where row number `n` goes when positions are filled segment by segment. */
  predicate PosOf(n: nat, p: Pos)
  {
    FirstRow(p.seg) <= n <= FirstRow(p.seg) + SEG_ROWS && p.off == RowBytes(n - FirstRow(p.seg))
  }

  /** The layout of the segments on flash, power cuts included: whole confirmed rows in append order,
      closed segments exactly full, at most one row of unconfirmed bytes, and nothing past the segment
      after the active one. Segments from `low` on are all there. */
  ghost predicate Stored(segs: map<nat, bytes>, log: seq<Row>, p: Pos, low: nat)
  {
    && PosOf(|log|, p) && (p.seg > 0 ==> p.off > 0)
    && (forall s :: s in segs ==> s <= p.seg + 1)
    && (forall s :: low <= s <= p.seg && FirstRow(s) < |log| ==> s in segs)
    && (forall s :: s in segs && s < p.seg ==> ClosedSegment(segs[s], log, s))
    && (p.seg in segs ==> ActiveSegment(segs[p.seg], log, p))
    && (p.seg + 1 in segs ==> p.off == SEG_BYTES && |segs[p.seg + 1]| <= ROW)
  }

  ghost predicate ClosedSegment(file: bytes, log: seq<Row>, s: nat)
  {
    |file| == SEG_BYTES && Holds(file, SegRows(log, s))
  }

  ghost predicate ActiveSegment(file: bytes, log: seq<Row>, p: Pos)
  {
    && Holds(file, SegRows(log, p.seg))
    && p.off <= |file| <= p.off + ROW && (p.off == SEG_BYTES ==> |file| == SEG_BYTES)
  }

  lemma SegRowsSize(log: seq<Row>, p: Pos, s: nat)
    requires PosOf(|log|, p) && s <= p.seg
    ensures |SegRows(log, s)| == (if s < p.seg then SEG_ROWS else |log| - FirstRow(p.seg))
  {
  }

  /** The log after a segment's first rows: what is left of the segment, and the segments after it. */
  lemma RestOfLog(log: seq<Row>, p: Pos, s: nat, j: nat)
    requires PosOf(|log|, p) && s <= p.seg && j <= |SegRows(log, s)|
    ensures FirstRow(s) + j <= |log|
    ensures s < p.seg ==> FirstRow(s + 1) <= |log|
    ensures log[FirstRow(s) + j..] == SegRows(log, s)[j..] + After(log, p, s)
  {
  }

  function After(log: seq<Row>, p: Pos, s: nat): seq<Row>
    requires PosOf(|log|, p) && s <= p.seg
  {
    if s < p.seg then log[FirstRow(s + 1)..] else []
  }

  /** Scanning from row `FirstRow(s) + j` on returns the unacknowledged rows from there on. */
  lemma {:induction false} ScanStored(segs: map<nat, bytes>, log: seq<Row>, p: Pos, low: nat, s: nat, j: nat,
                                      acked: nat)
    requires Stored(segs, log, p, low) && low <= s <= p.seg && j <= |SegRows(log, s)|
    ensures ScanLog(segs, s, RowBytes(j), p, acked) == Unacked(log[FirstRow(s) + j..], acked)
    decreases p.seg - s
  {
    hide Holds, ScanFile, SegRows;
    RestOfLog(log, p, s, j);
    if s !in segs {
      SegRowsSize(log, p, s);
      assert log[FirstRow(s) + j..] == [];
    } else {
      StoredSegment(segs, log, p, low, s);
      ScanHolds(segs[s], SegRows(log, s), j, acked);
      UnackedSplit(SegRows(log, s)[j..], After(log, p, s), acked);
      if s < p.seg {
        ScanStored(segs, log, p, low, s + 1, 0, acked);
      }
    }
  }

  lemma StoredSegment(segs: map<nat, bytes>, log: seq<Row>, p: Pos, low: nat, s: nat)
    requires Stored(segs, log, p, low) && s in segs && s <= p.seg
    ensures Holds(segs[s], SegRows(log, s)) && Limit(segs, s, p) == RowBytes(|SegRows(log, s)|)
    ensures s < p.seg ==> |SegRows(log, s)| == SEG_ROWS
    ensures PosOf(|log|, p)
  {
    hide Holds;
    SegRowsSize(log, p, s);
  }

  lemma WalkUnfold(segs: map<nat, bytes>, s: nat, j: nat, k: nat, rows: nat, p: Pos, ack: nat)
    requires s in segs && s <= p.seg && Limit(segs, s, p) == RowBytes(rows) && j <= rows
    requires PassedCells(segs[s], RowBytes(j), RowBytes(rows), ack) == k
    ensures WalkLog(segs, s, RowBytes(j), p, ack) ==
      if s < p.seg && j + k >= rows then
        var w := WalkLog(segs, s + 1, 0, p, ack);
        w.(cells := k + w.cells)
      else Walk(Pos(s, RowBytes(j + k)), k)
  {
    hide PassedCells;
  }

  /** Walking an acknowledgement forward from row `FirstRow(s) + j` passes exactly the leading
      acknowledged rows and stops in a segment all of whose predecessors are passed. */
  lemma {:induction false} WalkStored(segs: map<nat, bytes>, log: seq<Row>, p: Pos, low: nat, s: nat, j: nat, ack: nat)
    requires Stored(segs, log, p, low) && low <= s <= p.seg && j <= |SegRows(log, s)|
    ensures var w := WalkLog(segs, s, RowBytes(j), p, ack);
      && w.cells == Leading(log[FirstRow(s) + j..], ack)
      && s <= w.pos.seg <= p.seg && PosOf(FirstRow(s) + j + w.cells, w.pos)
    decreases p.seg - s
  {
    hide Stored, WalkLog, Leading, SegRows;
    if s !in segs {
      WalkMissing(segs, log, p, low, s, j, ack);
    } else {
      WalkStoredHere(segs, log, p, low, s, j, ack);
      if s < p.seg {
        WalkStored(segs, log, p, low, s + 1, 0, ack);
      }
    }
  }

  /** The active segment's file need not exist before the first row. */
  lemma WalkMissing(segs: map<nat, bytes>, log: seq<Row>, p: Pos, low: nat, s: nat, j: nat, ack: nat)
    requires Stored(segs, log, p, low) && low <= s <= p.seg && j <= |SegRows(log, s)| && s !in segs
    ensures FirstRow(s) + j <= |log| && Leading(log[FirstRow(s) + j..], ack) == 0
    ensures WalkLog(segs, s, RowBytes(j), p, ack) == Walk(Pos(s, RowBytes(j)), 0)
    ensures PosOf(FirstRow(s) + j, Pos(s, RowBytes(j)))
  {
    SegRowsSize(log, p, s);
    assert log[FirstRow(s) + j..] == [];
  }

  lemma WalkStoredHere(segs: map<nat, bytes>, log: seq<Row>, p: Pos, low: nat, s: nat, j: nat, ack: nat)
    requires Stored(segs, log, p, low) && low <= s <= p.seg && j <= |SegRows(log, s)| && s in segs
    ensures var k := Leading(SegRows(log, s)[j..], ack);
      && FirstRow(s) + j <= |log| && j + k <= |SegRows(log, s)| <= SEG_ROWS
      && Leading(log[FirstRow(s) + j..], ack) ==
           (if s < p.seg && j + k == SEG_ROWS then k + Leading(After(log, p, s), ack) else k)
      && WalkLog(segs, s, RowBytes(j), p, ack) ==
           (if s < p.seg && j + k == SEG_ROWS then
              var w := WalkLog(segs, s + 1, 0, p, ack);
              w.(cells := k + w.cells)
            else Walk(Pos(s, RowBytes(j + k)), k))
  {
    hide Holds, PassedCells, WalkLog, Stored, SegRows, After, FirstRow, Leading, Limit;
    var rows := SegRows(log, s);
    StoredSegment(segs, log, p, low, s);
    SegRowsSize(log, p, s);
    PassedHolds(segs[s], rows, j, ack);
    WalkUnfold(segs, s, j, Leading(rows[j..], ack), |rows|, p, ack);
    RestOfLog(log, p, s, j);
    LeadingSplit(rows[j..], After(log, p, s), ack);
    NoneAfterActive(log, p, s, ack);
  }

  lemma NoneAfterActive(log: seq<Row>, p: Pos, s: nat, ack: nat)
    requires PosOf(|log|, p) && s <= p.seg
    ensures s == p.seg ==> Leading(After(log, p, s), ack) == 0
    ensures |SegRows(log, s)| <= SEG_ROWS
  {
  }
}
