/** What every queue operation keeps, power cuts included: flash refines the log of confirmed rows. */
module QueueInvariant {
  import opened Bytes
  import opened Records
  import opened PingPong
  import opened Storage
  import opened QueueSpec
  import opened QueueLog
  import opened Totalizer

  function CursorIndex(p: Pos): nat
  {
    FirstRow(p.seg) + p.off / 36
  }

  function AckPos(a: Ack): Pos
  {
    Pos(a.cursorSegment, a.cursorOffset)
  }

  function CpPos(c: Checkpoint): Pos
  {
    Pos(c.qSegment, c.qOffset)
  }

  /** The cursor stands exactly at the first row with seq above `acked`. */
  ghost predicate CursorOk(log: seq<Row>, a: Ack, frontier: Pos)
  {
    var c := CursorIndex(AckPos(a));
    && PosOf(c, AckPos(a)) && c <= |log| && a.cursorSegment <= frontier.seg
    && (forall i :: 0 <= i < c ==> log[i].seqNo <= a.acked)
    && (forall i :: c <= i < |log| ==> log[i].seqNo > a.acked)
  }

  function DurableCp(q: Dev): Rec<Checkpoint>
  {
    Newest(q.ck, ZERO_CHECKPOINT)
  }

  function DurableAck(q: Dev): Rec<Ack>
  {
    Newest(q.ak, ZERO_ACK)
  }

  /** What is on flash. Every confirmed row took a checkpoint write of its own. */
  ghost predicate DiskInv(q: Dev, log: seq<Row>)
  {
    var cp, ack := DurableCp(q), DurableAck(q);
    && Ascending(log) && |log| <= cp.writes
    && Sound(q.ck, cp, ZERO_CHECKPOINT) && Sound(q.ak, ack, ZERO_ACK)
    && Stored(q.segs, log, CpPos(cp.body), ack.body.cursorSegment)
    && CursorOk(log, ack.body, CpPos(cp.body))
  }

  /** The totalizer's copy of the checkpoint differs from the durable one at most in the boot id. */
  predicate CpCurrent(q: Dev)
  {
    q.cp == DurableCp(q).(body := DurableCp(q).body.(boot := q.cp.body.boot))
  }

  /** The maintained counter is the number of confirmed rows past the cursor. */
  predicate RamInv(q: Dev, log: seq<Row>)
  {
    && CpCurrent(q) && q.ack == DurableAck(q)
    && CursorIndex(q.Cursor()) <= |log| && q.unacked == |log| - CursorIndex(q.Cursor())
  }

  ghost predicate Inv(q: Dev, log: seq<Row>)
  {
    DiskInv(q, log) && (q.on ==> RamInv(q, log))
  }

  /** An erased device holds the empty log. */
  lemma FreshDevice(q: Dev)
    requires q.segs == map[] && q.ck == Pair(None, None) && q.ak == Pair(None, None)
    ensures DiskInv(q, [])
  {
  }

  // --- reading -----------------------------------------------------------------------------

  lemma UnackedFromCursor(log: seq<Row>, a: Ack, frontier: Pos)
    requires CursorOk(log, a, frontier)
    ensures Unacked(log, a.acked) == log[CursorIndex(AckPos(a))..]
    ensures Unacked(log[CursorIndex(AckPos(a))..], a.acked) == log[CursorIndex(AckPos(a))..]
  {
    var c := CursorIndex(AckPos(a));
    UnackedNone(log[..c], a.acked);
    UnackedAll(log[c..], a.acked);
    UnackedSplit(log[..c], log[c..], a.acked);
    assert log == log[..c] + log[c..];
  }

  lemma ScanFromCursor(segs: map<nat, bytes>, log: seq<Row>, frontier: Pos, a: Ack)
    requires Stored(segs, log, frontier, a.cursorSegment) && CursorOk(log, a, frontier)
    ensures ScanLog(segs, a.cursorSegment, a.cursorOffset, frontier, a.acked) == Unacked(log, a.acked)
    ensures Unacked(log, a.acked) == log[CursorIndex(AckPos(a))..]
  {
    hide Stored, ScanLog, Unacked, SegRows;
    var j := CursorIndex(AckPos(a)) - FirstRow(a.cursorSegment);
    CursorInSegment(log, a, frontier, segs);
    ScanStored(segs, log, frontier, a.cursorSegment, a.cursorSegment, j, a.acked);
    UnackedFromCursor(log, a, frontier);
  }

  /** Reading from the persisted cursor returns exactly what a scan of the whole log would: every
      confirmed row with seq above the acknowledged one. The counter is their number. */
  lemma CursorRefinesFullScan(q: Dev, log: seq<Row>)
    requires Inv(q, log) && q.on
    ensures Backlog(q) == Unacked(log, q.ack.body.acked) && q.unacked == |Backlog(q)|
    ensures Unacked(log, q.ack.body.acked) == log[CursorIndex(q.Cursor())..]
  {
    hide Stored, CursorOk, Ascending, ScanLog, Unacked, CursorIndex, Sound, Newest;
    ScanFromCursor(q.segs, log, q.Frontier(), q.ack.body);
  }

  lemma CursorInSegment(log: seq<Row>, a: Ack, frontier: Pos, segs: map<nat, bytes>)
    requires CursorOk(log, a, frontier) && Stored(segs, log, frontier, a.cursorSegment)
    ensures var j := CursorIndex(AckPos(a)) - FirstRow(a.cursorSegment);
      0 <= j <= |SegRows(log, a.cursorSegment)| && RowBytes(j) == a.cursorOffset
  {
  }

  // --- acknowledging ----------------------------------------------------------------------

  /** Removing segments below a new lower bound, or past the active one, keeps the rest intact. */
  lemma StoredWithout(segs: map<nat, bytes>, segs': map<nat, bytes>, log: seq<Row>, p: Pos, low: nat, low': nat)
    requires Stored(segs, log, p, low) && low <= low'
    requires segs'.Keys <= segs.Keys && forall s :: s in segs' ==> segs'[s] == segs[s]
    requires forall s :: s in segs && low' <= s <= p.seg ==> s in segs'
    ensures Stored(segs', log, p, low')
  {
    hide ClosedSegment, ActiveSegment;
  }

  /** No row of a segment below the cursor's is unacknowledged. */
  lemma BelowCursorAcked(log: seq<Row>, a: Ack, frontier: Pos, s: nat)
    requires CursorOk(log, a, frontier) && s < a.cursorSegment && PosOf(|log|, frontier)
    ensures forall i :: 0 <= i < |SegRows(log, s)| ==> SegRows(log, s)[i].seqNo <= a.acked
  {
    forall i | 0 <= i < |SegRows(log, s)|
      ensures SegRows(log, s)[i].seqNo <= a.acked
    {
      assert SegRows(log, s)[i] == log[FirstRow(s) + i];
    }
  }

  /** Nothing that a removal takes away is still needed: only segments other than the active one, and
      none with a confirmed row above what is durably acknowledged. */
  ghost predicate DeletionSafe(q: Dev, q': Dev, log: seq<Row>)
  {
    forall s :: s in q.segs && s !in q'.segs ==>
      && s != CpPos(DurableCp(q).body).seg
      && (forall i :: 0 <= i < |SegRows(log, s)| ==> SegRows(log, s)[i].seqNo <= DurableAck(q').body.acked)
  }

  /** The walk of an acknowledgement lands the cursor on the first row above it. */
  lemma WalkLands(segs: map<nat, bytes>, log: seq<Row>, frontier: Pos, a: Ack, ackedSeq: u32, boot: u32)
    requires Stored(segs, log, frontier, a.cursorSegment) && CursorOk(log, a, frontier) && Ascending(log)
    requires ackedSeq > a.acked && frontier.seg <= U32_MAX
    ensures var w := WalkLog(segs, a.cursorSegment, a.cursorOffset, frontier, ackedSeq);
      var c := CursorIndex(AckPos(a)) + w.cells;
      && a.cursorSegment <= w.pos.seg <= frontier.seg && w.pos.off <= SEG_BYTES
      && CursorIndex(w.pos) == c && c <= |log|
      && CursorOk(log, Ack(ackedSeq, boot, w.pos.seg, w.pos.off), frontier)
  {
    hide Stored, WalkLog, SegRows, Ascending, Leading;
    var c := CursorIndex(AckPos(a));
    CursorInSegment(log, a, frontier, segs);
    WalkStored(segs, log, frontier, a.cursorSegment, a.cursorSegment, c - FirstRow(a.cursorSegment), ackedSeq);
    LeadingLands(log, c, ackedSeq);
    CursorLands(log, c + Leading(log[c..], ackedSeq),
                WalkLog(segs, a.cursorSegment, a.cursorOffset, frontier, ackedSeq).pos, ackedSeq, boot, frontier);
  }

  lemma CursorLands(log: seq<Row>, n: nat, p: Pos, ackedSeq: u32, boot: u32, frontier: Pos)
    requires PosOf(n, p) && n <= |log| && p.seg <= frontier.seg <= U32_MAX
    requires forall i :: 0 <= i < n ==> log[i].seqNo <= ackedSeq
    requires forall i :: n <= i < |log| ==> log[i].seqNo > ackedSeq
    ensures CursorIndex(p) == n && p.off <= SEG_BYTES
    ensures CursorOk(log, Ack(ackedSeq, boot, p.seg, p.off), frontier)
  {
    IndexOfPos(n, p);
  }

  lemma IndexOfPos(n: nat, p: Pos)
    requires PosOf(n, p)
    ensures CursorIndex(p) == n && p.off <= SEG_BYTES
  {
  }

  lemma LeadingLands(log: seq<Row>, c: nat, ackedSeq: nat)
    requires Ascending(log) && c <= |log| && forall i :: 0 <= i < c ==> log[i].seqNo <= ackedSeq
    ensures var n := c + Leading(log[c..], ackedSeq);
      && n <= |log| && (forall i :: 0 <= i < n ==> log[i].seqNo <= ackedSeq)
      && (forall i :: n <= i < |log| ==> log[i].seqNo > ackedSeq)
  {
    var k := Leading(log[c..], ackedSeq);
    forall i | 0 <= i < c + k
      ensures log[i].seqNo <= ackedSeq
    {
      if i >= c {
        assert log[i] == log[c..][i - c];
      }
    }
    if c + k < |log| {
      assert log[c + k] == log[c..][k];
    }
  }

  /** An acknowledgement keeps the invariant and removes nothing that is still needed, at whatever
      point power is cut; the clamp of the counter is never taken. */
  lemma AckKeepsInv(q: Dev, log: seq<Row>, ackedSeq: u32, boot: u32, q': Dev)
    requires Inv(q, log) && q.on && q.ack.writes < U32_MAX && AckSpec(q, ackedSeq, boot, q')
    ensures Inv(q', log) && DeletionSafe(q, q', log)
    ensures q'.on ==> q'.ack.body.acked == (if ackedSeq > q.ack.body.acked then ackedSeq else q.ack.body.acked)
    ensures q'.on ==> q'.ack.body.boot == (if ackedSeq > q.ack.body.acked then boot else q.ack.body.boot)
    ensures DurableAck(q').body.acked == q.ack.body.acked || DurableAck(q').body.acked == ackedSeq > q.ack.body.acked
  {
    hide WalkLog, Ascending, Stored, CursorOk, CursorIndex, Sound, SegRows;
    SoundRecovers(q.ak, q.ack, ZERO_ACK);
    if ackedSeq > q.ack.body.acked {
      var w := WalkLog(q.segs, q.Cursor().seg, q.Cursor().off, q.Frontier(), ackedSeq);
      WalkLands(q.segs, log, q.Frontier(), q.ack.body, ackedSeq, boot);
      PersistSound(q.ak, q.ack, q'.ack, q'.ak, q'.on, ZERO_ACK);
      if q'.ak == Put(q.ak, q'.ack) {
        StoredWithout(q.segs, q'.segs, log, q.Frontier(), q.Cursor().seg, w.pos.seg);
        StoredPos(q.segs, log, q.Frontier(), q.Cursor().seg);
        AckDeletesSafely(q, q', log, w.pos.seg);
      }
    }
  }

  lemma AckDeletesSafely(q: Dev, q': Dev, log: seq<Row>, low: nat)
    requires low <= q.Frontier().seg && q.Frontier() == CpPos(DurableCp(q).body) && PosOf(|log|, q.Frontier())
    requires q.segs.Keys - SegmentRange(q.Cursor().seg, low) <= q'.segs.Keys
    requires DurableAck(q').body.cursorSegment == low && CursorOk(log, DurableAck(q').body, q.Frontier())
    ensures DeletionSafe(q, q', log)
  {
    hide CursorOk, SegRows, Newest;
    forall s | s in q.segs && s !in q'.segs
      ensures s != q.Frontier().seg
      ensures forall i :: 0 <= i < |SegRows(log, s)| ==> SegRows(log, s)[i].seqNo <= DurableAck(q').body.acked
    {
      assert s in SegmentRange(q.Cursor().seg, low);
      BelowCursorAcked(log, DurableAck(q').body, q.Frontier(), s);
    }
  }

  lemma StoredPos(segs: map<nat, bytes>, log: seq<Row>, p: Pos, low: nat)
    requires Stored(segs, log, p, low)
    ensures PosOf(|log|, p) && (p.seg > 0 ==> p.off > 0)
  {
    hide ClosedSegment, ActiveSegment;
  }

  // --- appending ----------------------------------------------------------------------------

  /** Where row number |log| goes. */
  function NextPos(p: Pos): Pos
  {
    if p.off >= SEG_BYTES then Pos(p.seg + 1, 0) else p
  }

  /** What lies past the confirmed bytes of the target is at most one row, so exactly the confirmed
      bytes are kept. */
  lemma KeepsConfirmed(segs: map<nat, bytes>, log: seq<Row>, p: Pos, low: nat, keep: nat, steady: bool)
    requires Stored(segs, log, p, low) && low <= p.seg
    requires KeepOk(FileOf(segs, NextPos(p).seg), NextPos(p).off, keep, steady)
    ensures keep == NextPos(p).off <= |FileOf(segs, NextPos(p).seg)|
  {
    hide ClosedSegment, Holds, ValidRows, SegRows;
  }

  /** Replacing what follows the confirmed bytes of the target by at most one row changes nothing. */
  lemma StoredUnconfirmed(segs: map<nat, bytes>, file: bytes, log: seq<Row>, p: Pos, low: nat)
    requires Stored(segs, log, p, low) && low <= p.seg
    requires FileOf(segs, NextPos(p).seg)[..Min(NextPos(p).off, |FileOf(segs, NextPos(p).seg)|)] <= file
    requires |file| <= NextPos(p).off + ROW
    ensures Stored(segs[NextPos(p).seg := file], log, p, low)
  {
    hide ClosedSegment, Holds;
    if p.off < SEG_BYTES {
      SegRowsSize(log, p, p.seg);
      if p.seg in segs {
        HoldsSamePrefix(segs[p.seg], file, SegRows(log, p.seg));
      } else {
        EmptyHolds(file, SegRows(log, p.seg));
      }
    }
  }

  lemma EmptyHolds(file: bytes, rows: seq<Row>)
    requires rows == []
    ensures Holds(file, rows)
  {
  }

  /** A row written right after the confirmed bytes extends the log. */
  lemma StoredConfirmed(segs: map<nat, bytes>, log: seq<Row>, p: Pos, low: nat, row: Row)
    requires Stored(segs, log, p, low) && low <= p.seg
    requires NextPos(p).off <= |FileOf(segs, NextPos(p).seg)|
    ensures var t := NextPos(p);
      var file := FileOf(segs, t.seg)[..t.off] + EncodeRow(row);
      Stored(segs[t.seg := file], log + [row], Pos(t.seg, t.off + ROW), low)
  {
    hide ClosedSegment, ActiveSegment, Holds, EncodeRow, SegRows;
    var t := NextPos(p);
    var file := FileOf(segs, t.seg)[..t.off] + EncodeRow(row);
    var segs' := segs[t.seg := file];
    TargetHolds(segs, log, p, low, row);
    forall s | s in segs' && s < t.seg
      ensures ClosedSegment(segs'[s], log + [row], s)
    {
      ClosedStays(segs, log, p, low, row, s);
    }
  }

  lemma TargetHolds(segs: map<nat, bytes>, log: seq<Row>, p: Pos, low: nat, row: Row)
    requires Stored(segs, log, p, low) && low <= p.seg
    requires NextPos(p).off <= |FileOf(segs, NextPos(p).seg)|
    ensures var t := NextPos(p);
      var file := FileOf(segs, t.seg)[..t.off] + EncodeRow(row);
      ActiveSegment(file, log + [row], Pos(t.seg, t.off + ROW))
  {
    hide Stored, Holds, EncodeRow, SegRows, FileOf;
    var t := NextPos(p);
    var kept := FileOf(segs, t.seg)[..t.off];
    var rows := TargetRows(log, p);
    StoredPos(segs, log, p, low);
    TargetRowsExtend(log, p, row);
    KeptHolds(segs, log, p, low);
    HoldsAppend(kept, rows, row);
    HoldsSize(kept + EncodeRow(row), rows + [row]);
  }

  /** The rows already in the segment that the next row goes to. */
  function TargetRows(log: seq<Row>, p: Pos): seq<Row>
  {
    if p.off >= SEG_BYTES then [] else SegRows(log, p.seg)
  }

  lemma TargetRowsExtend(log: seq<Row>, p: Pos, row: Row)
    requires PosOf(|log|, p)
    ensures SegRows(log + [row], NextPos(p).seg) == TargetRows(log, p) + [row]
    ensures RowBytes(|TargetRows(log, p)|) == NextPos(p).off
  {
    SegRowsSize(log, p, p.seg);
    if p.off >= SEG_BYTES {
      assert SegRows(log + [row], p.seg + 1) == [row];
    } else {
      assert SegRows(log + [row], p.seg) == SegRows(log, p.seg) + [row];
    }
  }

  lemma KeptHolds(segs: map<nat, bytes>, log: seq<Row>, p: Pos, low: nat)
    requires Stored(segs, log, p, low) && low <= p.seg
    requires NextPos(p).off <= |FileOf(segs, NextPos(p).seg)|
    ensures Holds(FileOf(segs, NextPos(p).seg)[..NextPos(p).off], TargetRows(log, p))
  {
    hide ClosedSegment, Holds, SegRows;
    var kept := FileOf(segs, NextPos(p).seg)[..NextPos(p).off];
    SegRowsSize(log, p, p.seg);
    if p.off < SEG_BYTES && p.seg in segs {
      assert segs[p.seg][..RowBytes(|SegRows(log, p.seg)|)] <= kept;
      HoldsSamePrefix(segs[p.seg], kept, SegRows(log, p.seg));
    } else {
      EmptyHolds(kept, TargetRows(log, p));
    }
  }

  lemma HoldsSize(file: bytes, rows: seq<Row>)
    requires Holds(file, rows)
    ensures RowBytes(|rows|) <= |file|
  {
  }

  lemma ClosedStays(segs: map<nat, bytes>, log: seq<Row>, p: Pos, low: nat, row: Row, s: nat)
    requires Stored(segs, log, p, low) && s in segs && s < NextPos(p).seg
    ensures ClosedSegment(segs[s], log + [row], s)
  {
    hide Holds, EncodeRow;
    SegRowsSize(log, p, s);
    assert SegRows(log + [row], s) == SegRows(log, s);
  }

  /** A row the queue may take: its seq is above the acknowledged one and not below any confirmed one. */
  ghost predicate Admissible(row: Row, log: seq<Row>, acked: nat)
  {
    row.seqNo > acked && forall i :: 0 <= i < |log| ==> row.seqNo >= log[i].seqNo
  }

  lemma AscendingExtends(log: seq<Row>, row: Row, acked: nat)
    requires Ascending(log) && Admissible(row, log, acked)
    ensures Ascending(log + [row])
  {
  }

  /** The segment number of the frontier stays far below the 32-bit limit. */
  lemma FrontierSmall(log: seq<Row>, p: Pos)
    requires |log| <= U32_MAX && PosOf(|log|, p)
    ensures FirstRow(p.seg) <= U32_MAX && p.off <= SEG_BYTES
  {
  }

  lemma CursorExtends(log: seq<Row>, a: Ack, p: Pos, row: Row, p': Pos)
    requires CursorOk(log, a, p) && row.seqNo > a.acked && p.seg <= p'.seg
    ensures CursorOk(log + [row], a, p')
  {
  }

  /** Append either extends the log by exactly its row or leaves it as it was, wherever it fails or
      power is cut, and keeps the invariant either way. */
  lemma AppendKeepsInv(q: Dev, log: seq<Row>, row: Row, uptime: u32, confirmed: bool, steady: bool, q': Dev)
    requires Inv(q, log) && q.on && q.cp.writes < U32_MAX
    requires AppendSpec(q, row, uptime, confirmed, steady, q') && Admissible(row, log, q.ack.body.acked)
    ensures Inv(q', if confirmed then log + [row] else log)
    ensures q'.on && !confirmed ==> q'.fail.body.count == Inc32(q.fail.body.count)
    ensures confirmed ==> q'.fail == q.fail
    ensures forall s :: s in q.segs ==> s in q'.segs
  {
    hide Stored, CursorOk, Ascending, Sound, KeepOk, EncodeRow, CursorIndex, Admissible;
    var keep :| AppendWith(q, row, uptime, confirmed, keep, steady, q');
    StoredPos(q.segs, log, q.Frontier(), q.Cursor().seg);
    FrontierSmall(log, q.Frontier());
    CursorBelowFrontier(log, q.ack.body, q.Frontier());
    assert Target(q.cp.body) == NextPos(q.Frontier());
    KeepsConfirmed(q.segs, log, q.Frontier(), q.Cursor().seg, keep, steady);
    if confirmed {
      AppendConfirmed(q, log, row, keep, q');
    } else {
      AppendUnconfirmed(q, log, row, uptime, keep, q');
    }
  }

  lemma CursorBelowFrontier(log: seq<Row>, a: Ack, p: Pos)
    requires CursorOk(log, a, p)
    ensures a.cursorSegment <= p.seg && CursorIndex(AckPos(a)) <= |log|
  {
  }

  lemma AppendConfirmed(q: Dev, log: seq<Row>, row: Row, keep: nat, q': Dev)
    requires Inv(q, log) && q.on && q.cp.writes < U32_MAX && q.Frontier().seg < U32_MAX
    requires Target(q.cp.body) == NextPos(q.Frontier()) && q.Cursor().seg <= q.Frontier().seg
    requires keep == NextPos(q.Frontier()).off <= |FileOf(q.segs, Target(q.cp.body).seg)| && keep < SEG_BYTES
    requires Confirmed(q, row, keep, q') && Admissible(row, log, q.ack.body.acked)
    ensures Inv(q', log + [row])
  {
    hide Stored, CursorOk, Ascending, Sound, EncodeRow, CursorIndex, Admissible;
    var t := NextPos(q.Frontier());
    StoredConfirmed(q.segs, log, q.Frontier(), q.Cursor().seg, row);
    AscendingExtends(log, row, q.ack.body.acked);
    SoundBoot(q.ck, DurableCp(q), q.cp);
    PersistNext(q.ck, DurableCp(q), q'.cp, q'.ck, q'.on);
    AdmissibleAboveAck(row, log, q.ack.body.acked);
    CursorExtends(log, q.ack.body, q.Frontier(), row, Pos(t.seg, t.off + ROW));
    CursorBelowFrontier(log, q.ack.body, q.Frontier());
    assert Wrap32(keep + ROW) == keep + ROW;
  }

  lemma AdmissibleAboveAck(row: Row, log: seq<Row>, acked: nat)
    requires Admissible(row, log, acked)
    ensures row.seqNo > acked
  {
  }

  lemma SoundBoot(p: Pair<Checkpoint>, cur: Rec<Checkpoint>, ram: Rec<Checkpoint>)
    requires Sound(p, cur, ZERO_CHECKPOINT)
    ensures Newest(p, ZERO_CHECKPOINT) == cur
  {
    SoundRecovers(p, cur, ZERO_CHECKPOINT);
  }

  /** PersistSound for a finished write. */
  lemma PersistNext(p: Pair<Checkpoint>, cur: Rec<Checkpoint>, r: Rec<Checkpoint>, p': Pair<Checkpoint>, on: bool)
    requires Sound(p, cur, ZERO_CHECKPOINT) && cur.writes < U32_MAX && r.writes == Inc32(cur.writes) && p' == Put(p, r)
    ensures Sound(p', r, ZERO_CHECKPOINT) && Newest(p', ZERO_CHECKPOINT) == r
  {
    PersistSound(p, cur, r, p', on, ZERO_CHECKPOINT);
  }

  lemma AppendUnconfirmed(q: Dev, log: seq<Row>, row: Row, uptime: u32, keep: nat, q': Dev)
    requires Inv(q, log) && q.on && q.cp.writes < U32_MAX
    requires Target(q.cp.body) == NextPos(q.Frontier()) && q.Cursor().seg <= q.Frontier().seg
    requires keep == NextPos(q.Frontier()).off <= |FileOf(q.segs, Target(q.cp.body).seg)|
    requires Unconfirmed(q, row, uptime, keep, q')
    ensures Inv(q', log)
  {
    hide Stored, CursorOk, Ascending, Sound, EncodeRow, CursorIndex;
    if q'.segs != q.segs {
      var seg := Target(q.cp.body).seg;
      ResidueSmall(q.segs, log, q.Frontier(), q.Cursor().seg, row, keep, q'.segs[seg]);
      StoredUnconfirmed(q.segs, q'.segs[seg], log, q.Frontier(), q.Cursor().seg);
    }
    if q'.ck != q.ck {
      PersistSound(q.ck, DurableCp(q), Next(q.cp, q.cp.body), q'.ck, false, ZERO_CHECKPOINT);
    }
  }

  lemma ResidueSmall(segs: map<nat, bytes>, log: seq<Row>, p: Pos, low: nat, row: Row, keep: nat, file': bytes)
    requires Stored(segs, log, p, low)
    requires keep == NextPos(p).off <= |FileOf(segs, NextPos(p).seg)|
    requires var file := FileOf(segs, NextPos(p).seg);
      file' == file || file[..keep] <= file' <= file[..keep] + EncodeRow(row)
    ensures FileOf(segs, NextPos(p).seg)[..keep] <= file' && |file'| <= keep + ROW
  {
    hide ClosedSegment, Holds, EncodeRow;
  }

  // --- power --------------------------------------------------------------------------------

  /** Power may go at any moment; what is on flash stays as it is. */
  lemma CutKeepsInv(q: Dev, log: seq<Row>)
    requires Inv(q, log)
    ensures Inv(q.(on := false), log)
  {
    hide Stored, CursorOk, Ascending, Sound;
  }

  /** The totalizer's checkpoint of total and sequence number. */
  predicate ServiceStep(q: Dev, total: u64, seqNo: u32, q': Dev)
  {
    && q'.cp == Next(q.cp, Counted(q.cp.body, total, seqNo))
    && Persisted(q.ck, q'.cp, q'.ck, q'.on)
    && q'.segs == q.segs && q'.ak == q.ak && q'.fl == q.fl
    && q'.ack == q.ack && q'.fail == q.fail && q'.unacked == q.unacked
  }

  lemma ServiceKeepsInv(q: Dev, log: seq<Row>, total: u64, seqNo: u32, q': Dev)
    requires Inv(q, log) && q.on && q.cp.writes < U32_MAX && ServiceStep(q, total, seqNo, q')
    ensures Inv(q', log)
  {
    hide Stored, CursorOk, Ascending, Sound, CursorIndex;
    PersistSound(q.ck, DurableCp(q), q'.cp, q'.ck, q'.on, ZERO_CHECKPOINT);
  }

  /** The totalizer's part of a boot: power is back and the checkpoint is recovered; a checkpoint found
      in the legacy format is rewritten, which power may cut short again. */
  predicate PowerOn(q: Dev, boot: u32, q1: Dev)
  {
    && q1.segs == q.segs && q1.ak == q.ak && q1.fl == q.fl
    && q1.cp.body == DurableCp(q).body.(boot := boot)
    && if q1.cp.writes == DurableCp(q).writes then q1.ck == q.ck && q1.on
       else q1.cp.writes == Inc32(DurableCp(q).writes) && Persisted(q.ck, q1.cp, q1.ck, q1.on)
  }

  lemma PowerOnKeepsDisk(q: Dev, log: seq<Row>, boot: u32, q1: Dev)
    requires DiskInv(q, log) && DurableCp(q).writes < U32_MAX && PowerOn(q, boot, q1)
    ensures DiskInv(q1, log) && (q1.on ==> CpCurrent(q1))
    ensures DurableCp(q1).body == DurableCp(q).body.(boot := DurableCp(q1).body.boot) && DurableAck(q1) == DurableAck(q)
    ensures DurableCp(q).writes <= DurableCp(q1).writes
  {
    hide Stored, CursorOk, Ascending, Sound, CursorIndex;
    if q1.cp.writes != DurableCp(q).writes {
      PersistSound(q.ck, DurableCp(q), q1.cp, q1.ck, q1.on, ZERO_CHECKPOINT);
    }
  }

  /** The queue's part of a boot brings memory back in line with flash and removes nothing that is still
      needed; what a cut between a durable cursor and its deletions left behind is swept here. */
  lemma BeginKeepsInv(q: Dev, log: seq<Row>, steady: bool, q': Dev)
    requires DiskInv(q, log) && q.on && CpCurrent(q) && BeginSpec(q, steady, q')
    ensures Inv(q', log) && DeletionSafe(q, q', log)
    ensures DurableAck(q') == DurableAck(q) && DurableCp(q') == DurableCp(q)
  {
    hide Stored, CursorOk, Ascending, Sound, CursorIndex, Backlog, SweepSpec, SegRows;
    var listed: bool, m: Dev :| BeginVia(q, steady, listed, m, q');
    var q1 := q.(ack := DurableAck(q));
    if listed {
      SweepKeeps(q1, log, steady, m);
    } else {
      NothingGone(q1, log);
    }
    if m.on {
      CursorBelowFrontier(log, m.ack.body, m.Frontier());
      assert m.Cursor() == AckPos(m.ack.body);
      var n := m.(unacked := |log| - CursorIndex(m.Cursor()));
      CursorRefinesFullScan(n, log);
      BacklogIgnoresCounter(n, m);
    }
  }

  /** A failure history whose record landed is the one a boot comes up with. */
  lemma HistorySurvivesBoot(q: Dev, steady: bool, q': Dev, history: Rec<Failure>)
    requires Newest(q.fl, ZERO_FAILURE) == history && BeginSpec(q, steady, q') && q'.on
    ensures q'.fail == history && q'.fl == q.fl
  {
    hide Backlog, Regressed, Swept, Adopted;
    var listed: bool, m: Dev :| BeginVia(q, steady, listed, m, q');
  }

  lemma NothingGone(q: Dev, log: seq<Row>)
    ensures DeletionSafe(q, q, log)
  {
  }

  lemma BacklogIgnoresCounter(a: Dev, b: Dev)
    requires a.segs == b.segs && a.ack == b.ack && a.cp == b.cp
    ensures Backlog(a) == Backlog(b)
  {
    hide ScanLog;
  }

  lemma SweepKeeps(q: Dev, log: seq<Row>, steady: bool, m: Dev)
    requires DiskInv(q, log) && CpCurrent(q) && q.ack == DurableAck(q) && SweepSpec(q, steady, m)
    ensures DiskInv(m, log) && CpCurrent(m) && m.ack == q.ack == DurableAck(m)
    ensures m.ak == q.ak && m.ck == q.ck && m.cp == q.cp
    ensures DeletionSafe(q, m, log)
  {
    hide CursorOk, Ascending, Sound, CursorIndex, Stored, SegRows, Swept;
    NotRegressed(q.segs, log, q.Frontier(), q.Cursor().seg);
    CursorBelowFrontier(log, q.ack.body, q.Frontier());
    SweptOnlySweepable(q, m);
    StoredWithout(q.segs, m.segs, log, q.Frontier(), q.Cursor().seg, q.Cursor().seg);
    StoredPos(q.segs, log, q.Frontier(), q.Cursor().seg);
    forall s | s in q.segs && s !in m.segs
      ensures s != q.Frontier().seg
      ensures forall i :: 0 <= i < |SegRows(log, s)| ==> SegRows(log, s)[i].seqNo <= DurableAck(m).body.acked
    {
      if s < q.Cursor().seg {
        BelowCursorAcked(log, q.ack.body, q.Frontier(), s);
      } else {
        NothingPastFrontier(log, q.Frontier(), s);
      }
    }
  }

  lemma NotRegressed(segs: map<nat, bytes>, log: seq<Row>, p: Pos, low: nat)
    requires Stored(segs, log, p, low) && |log| <= U32_MAX && p.seg <= U32_MAX
    ensures !Regressed(segs, p.seg)
  {
    hide ClosedSegment, ActiveSegment, Ascending;
    FrontierSmall(log, p);
  }

  lemma SweptOnlySweepable(q: Dev, m: Dev)
    requires Swept(q, m)
    ensures m.segs.Keys <= q.segs.Keys && forall s :: s in m.segs ==> m.segs[s] == q.segs[s]
    ensures forall s :: s in q.segs && s !in m.segs ==> s > q.Frontier().seg || s < q.Cursor().seg
  {
    forall s | s in q.segs && s !in m.segs
      ensures s > q.Frontier().seg || s < q.Cursor().seg
    {
      assert s in q.segs.Keys - m.segs.Keys;
    }
  }

  lemma NothingPastFrontier(log: seq<Row>, p: Pos, s: nat)
    requires PosOf(|log|, p) && s > p.seg
    ensures SegRows(log, s) == []
  {
  }

  /** The segments a sweep with these positions is free to remove. */
  function StraySegments(segs: map<nat, bytes>, active: nat, cursor: nat): (strays: set<nat>)
    ensures forall s :: s in strays <==> s in segs && Sweepable(active, cursor, s)
  {
    set s | s in segs && Sweepable(active, cursor, s)
  }

  function Strays(q: Dev): set<nat>
  {
    StraySegments(q.segs, DurableCp(q).body.qSegment, DurableAck(q).body.cursorSegment)
  }

  /** A finished sweep removes exactly 32 strays, or all of them if there are no more. */
  lemma SweptCount(q: Dev, q': Dev)
    requires Swept(q, q') && q'.on
    ensures var a, c := q.cp.body.qSegment, q.ack.body.cursorSegment;
      var before, after := StraySegments(q.segs, a, c), StraySegments(q'.segs, a, c);
      && after <= before && |after| == (if |before| <= 32 then 0 else |before| - 32)
      && (|before| <= 32 ==> q'.segs.Keys == q.segs.Keys - before)
  {
    hide StraySegments, Sweepable;
    var a, c := q.cp.body.qSegment, q.ack.body.cursorSegment;
    var before, after := StraySegments(q.segs, a, c), StraySegments(q'.segs, a, c);
    var gone := q.segs.Keys - q'.segs.Keys;
    assert gone <= before && after == before - gone;
    assert |gone| < MAX_SWEEP ==> after == {};
    SweepSizes(q.segs.Keys, q'.segs.Keys, before);
  }

  lemma SweepSizes(all: set<nat>, left: set<nat>, strays: set<nat>)
    requires left <= all && all - left <= strays && |all - left| <= MAX_SWEEP
    requires |all - left| < MAX_SWEEP ==> strays - (all - left) == {}
    ensures |strays - (all - left)| == if |strays| <= MAX_SWEEP then 0 else |strays| - MAX_SWEEP
    ensures |strays| <= MAX_SWEEP ==> left == all - strays
  {
    var gone := all - left;
    SizeOfRest(strays, gone);
    if |strays - gone| == 0 {
      assert gone == strays;
    }
  }

  lemma SizeOfRest(whole: set<nat>, part: set<nat>)
    requires part <= whole
    ensures |whole - part| == |whole| - |part|
  {
    assert whole == part + (whole - part);
  }

  /** What a boot that could list the directory leaves: the strays are 32 fewer, or gone; once they
      are, nothing is on flash but the segments from the cursor's to the active one. */
  lemma SweepLeavesOnlyNeeded(q: Dev, log: seq<Row>, steady: bool, m: Dev, q': Dev)
    requires DiskInv(q, log) && q.on && CpCurrent(q) && BeginVia(q, steady, true, m, q') && q'.on
    ensures |Strays(q')| == if |Strays(q)| <= 32 then 0 else |Strays(q)| - 32
    ensures |Strays(q)| <= 32 ==>
      forall s :: s in q'.segs ==> DurableAck(q).body.cursorSegment <= s <= DurableCp(q).body.qSegment
  {
    hide CursorOk, Ascending, Sound, CursorIndex, Backlog, Stored, Swept, StraySegments, Newest;
    NotRegressed(q.segs, log, q.Frontier(), DurableAck(q).body.cursorSegment);
    SweptCount(q.(ack := DurableAck(q)), m);
    var active, cursor := q.Frontier().seg, DurableAck(q).body.cursorSegment;
    assert forall s :: s in q'.segs && Sweepable(active, cursor, s) ==> s in Strays(q');
  }

  /** The operator's reset keeps the log's meaning exactly when it does not acknowledge backwards, or when
      power is cut before its record lands. */
  lemma ResetKeepsInv(q: Dev, log: seq<Row>, currentSeq: u32, q': Dev)
    requires Inv(q, log) && q.on && q.ack.writes < U32_MAX
    requires q'.ack == Next(q.ack, q.ack.body.(acked := currentSeq,
               cursorSegment := q.cp.body.qSegment, cursorOffset := q.cp.body.qOffset))
    requires Persisted(q.ak, q'.ack, q'.ak, q'.on)
    requires q' == q.(ack := q'.ack, ak := q'.ak, on := q'.on, unacked := 0)
    ensures Inv(q', log) <==>
      q'.ak != Put(q.ak, q'.ack) || forall i :: 0 <= i < |log| ==> log[i].seqNo <= currentSeq
  {
    hide Ascending, Stored, CursorOk, Sound, CursorIndex;
    SoundRecovers(q.ak, q.ack, ZERO_ACK);
    PersistSound(q.ak, q.ack, q'.ack, q'.ak, q'.on, ZERO_ACK);
    StoredPos(q.segs, log, q.Frontier(), q.Cursor().seg);
    IndexOfPos(|log|, q.Frontier());
    CursorBelowFrontier(log, q.ack.body, q.Frontier());
    StoredWithout(q.segs, q.segs, log, q.Frontier(), q.Cursor().seg, q.Frontier().seg);
    CursorAtEnd(log, q'.ack.body, q.Frontier());
  }

  lemma CursorAtEnd(log: seq<Row>, a: Ack, frontier: Pos)
    requires AckPos(a) == frontier && PosOf(|log|, frontier)
    ensures CursorOk(log, a, frontier) <==> forall i :: 0 <= i < |log| ==> log[i].seqNo <= a.acked
  {
    IndexOfPos(|log|, frontier);
  }
}
