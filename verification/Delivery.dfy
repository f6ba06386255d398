/** What the protocol promises over whole runs, and exactly when it makes progress. */
module Delivery {
  import opened Bytes
  import opened Records
  import opened PingPong
  import opened QueueSpec
  import opened QueueLog
  import opened QueueInvariant
  import opened AckParsing
  import opened Protocol

  // --- safety ------------------------------------------------------------------------------

  /** A confirmed row not durably acknowledged is on flash, byte for byte, where its position says. */
  lemma UnackedOnFlash(q: Dev, log: seq<Row>, i: nat)
    requires DiskInv(q, log) && i < |log| && log[i].seqNo > DurableAck(q).body.acked
    ensures var s := i / 5000;
      s in q.segs && FirstRow(s) <= i && RowBytes(i - FirstRow(s)) + ROW <= |q.segs[s]|
      && Cell(q.segs[s], RowBytes(i - FirstRow(s))) == EncodeRow(log[i])
  {
    hide Ascending, Sound, EncodeRow, Stored, SegRows, CursorOk, CursorIndex;
    var p, a, s := CpPos(DurableCp(q).body), DurableAck(q).body, i / 5000;
    StoredPos(q.segs, log, p, a.cursorSegment);
    RowInRange(log, a, p, i);
    SegmentThere(q.segs, log, p, a.cursorSegment, s);
    StoredSegment(q.segs, log, p, a.cursorSegment, s);
    CellOfRow(q.segs[s], log, p, s, i);
  }

  lemma RowInRange(log: seq<Row>, a: Ack, p: Pos, i: nat)
    requires CursorOk(log, a, p) && PosOf(|log|, p) && i < |log| && log[i].seqNo > a.acked
    ensures a.cursorSegment <= i / 5000 <= p.seg && FirstRow(i / 5000) <= i < FirstRow(i / 5000) + SEG_ROWS
  {
    assert CursorIndex(AckPos(a)) <= i;
  }

  lemma SegmentThere(segs: map<nat, bytes>, log: seq<Row>, p: Pos, low: nat, s: nat)
    requires Stored(segs, log, p, low) && low <= s <= p.seg && FirstRow(s) < |log|
    ensures s in segs
  {
    hide ClosedSegment, ActiveSegment;
  }

  lemma CellOfRow(file: bytes, log: seq<Row>, p: Pos, s: nat, i: nat)
    requires Holds(file, SegRows(log, s)) && PosOf(|log|, p) && s <= p.seg
    requires FirstRow(s) <= i < FirstRow(s) + SEG_ROWS && i < |log|
    ensures RowBytes(i - FirstRow(s)) + ROW <= |file| && Cell(file, RowBytes(i - FirstRow(s))) == EncodeRow(log[i])
  {
    hide EncodeRow;
    SegRowsSize(log, p, s);
    assert SegRows(log, s)[i - FirstRow(s)] == log[i];
  }

  lemma {:induction false} InUnacked(log: seq<Row>, acked: nat, i: nat)
    requires i < |log| && log[i].seqNo > acked
    ensures log[i] in Unacked(log, acked)
  {
    if i > 0 {
      InUnacked(log[1..], acked, i - 1);
    }
  }

  /** Row `i` of the log lies on flash, byte for byte, where its position says. */
  predicate OnFlash(s: Sys, i: nat)
    requires i < |s.log|
  {
    && i / 5000 in s.q.segs && FirstRow(i / 5000) <= i
    && RowBytes(i - FirstRow(i / 5000)) + ROW <= |s.q.segs[i / 5000]|
    && Cell(s.q.segs[i / 5000], RowBytes(i - FirstRow(i / 5000))) == EncodeRow(s.log[i])
  }

  /** Row `i` is still to be delivered: it is on flash and draining the queue returns it. */
  ghost predicate Kept(s: Sys, i: nat)
    requires i < |s.log|
  {
    && s.log[i] in Unacked(s.log, DurableAck(s.q).body.acked)
    && (s.q.on ==> s.log[i] in Backlog(s.q)) && OnFlash(s, i)
  }

  /** Row `i`'s number is stored, with the reading of the first row that carries the number. */
  predicate Delivered(s: Sys, i: nat)
    requires i < |s.log|
  {
    && s.log[i].seqNo in s.tables.records
    && s.tables.records[s.log[i].seqNo].reading == ReadingOf(s.log[FirstOf(s.log, i)])
  }

  /** Row `i`'s own reading is neither stored nor going to be. */
  ghost predicate ReadingLost(s: Sys, i: nat)
    requires i < |s.log|
  {
    && !Kept(s, i)
    && (s.log[i].seqNo in s.tables.records ==> s.tables.records[s.log[i].seqNo].reading != ReadingOf(s.log[i]))
  }

  /** Every confirmed row is delivered exactly once: at every point of every run with this server its
      number is stored there with the reading of the first row that carries it, or it is on flash and
      draining the queue still returns it. A row's own reading is lost exactly when the row has gone from
      the queue and an earlier row carried its number with another reading. */
  lemma ExactlyOnce(states: seq<Sys>, events: seq<Event>, n: nat, i: nat)
    requires HonestRun(states, events) && n < |states| && i < |states[n].log|
    ensures Delivered(states[n], i) || Kept(states[n], i)
    ensures var s := states[n];
      ReadingLost(s, i) <==> !Kept(s, i) && ReadingOf(s.log[FirstOf(s.log, i)]) != ReadingOf(s.log[i])
  {
    hide Step, Start, Honest, HonestInv, Kept, FirstOf;
    RunHonest(states, events, n);
    DeliveredOrKept(states[n], i);
  }

  /** The same of any single state in which the invariant holds. */
  lemma DeliveredOrKept(s: Sys, i: nat)
    requires HonestInv(s) && i < |s.log|
    ensures Delivered(s, i) || Kept(s, i)
    ensures ReadingLost(s, i) <==> !Kept(s, i) && ReadingOf(s.log[FirstOf(s.log, i)]) != ReadingOf(s.log[i])
    ensures s.log[i].seqNo <= DurableAck(s.q).body.acked ==> !Kept(s, i)
  {
    hide DiskInv, EncodeRow, Backlog, CursorIndex, StoredFrom, S.Watermark, FirstOf;
    if s.log[i].seqNo <= DurableAck(s.q).body.acked {
      AckedStored(s, i);
      NotUnacked(s.log, DurableAck(s.q).body.acked, s.log[i]);
    } else {
      InUnacked(s.log, DurableAck(s.q).body.acked, i);
      UnackedOnFlash(s.q, s.log, i);
      if s.q.on {
        CursorRefinesFullScan(s.q, s.log);
      }
    }
  }

  /** What the server holds for a row that has gone from the queue and was the first with its number: boot,
      uptime, total and quality as they were, and the signal strength with its sign. */
  lemma DeliveredFields(s: Sys, i: nat)
    requires HonestInv(s) && First(s.log, i) && !Kept(s, i)
    ensures s.log[i].seqNo in s.tables.records
    ensures var row, reading := s.log[i], s.tables.records[s.log[i].seqNo].reading;
      && reading.boot == row.boot && reading.ts == row.ts && reading.totalizer == row.total
      && reading.quality == row.quality && reading.rssi == 0 - (row.rssi as int)
  {
    hide HonestInv, Kept;
    DeliveredOrKept(s, i);
    OneFirst(s.log, i, FirstOf(s.log, i));
  }

  lemma {:induction false} NotUnacked(log: seq<Row>, acked: nat, row: Row)
    requires row.seqNo <= acked
    ensures row !in Unacked(log, acked)
  {
    if log != [] {
      NotUnacked(log[1..], acked, row);
    }
  }

  lemma AckedStored(s: Sys, i: nat)
    requires HonestInv(s) && i < |s.log| && s.log[i].seqNo <= DurableAck(s.q).body.acked
    ensures Delivered(s, i)
  {
    hide Inv, FirstOf;
    var number := s.log[i].seqNo;
    AscendingOf(s.q, s.log);
    S.WatermarkIsLargest(s.tables.records.Keys, DurableAck(s.q).body.acked);
    assert 1 <= number;
    assert number in s.tables.records.Keys;
    assert HoldsFirst(s.log, s.tables, number);
    var k :| First(s.log, k) && s.log[k].seqNo == number && s.tables.records[number].reading == ReadingOf(s.log[k]);
    OneFirst(s.log, k, FirstOf(s.log, i));
  }

  /** Only one row is the first to carry a number. */
  lemma OneFirst(log: seq<Row>, j: int, k: int)
    requires First(log, j) && First(log, k) && log[j].seqNo == log[k].seqNo
    ensures j == k
  {
  }

  lemma AscendingOf(q: Dev, log: seq<Row>)
    requires Inv(q, log)
    ensures Ascending(log)
  {
    hide Stored, CursorOk, Sound;
  }

  /** Nothing is stored twice and nothing is made up: each record is the reading of one confirmed row, the
      first that carries its number. */
  lemma NeverStoredTwice(states: seq<Sys>, events: seq<Event>, n: nat, number: int)
    requires HonestRun(states, events) && n < |states| && number in states[n].tables.records
    ensures exists i :: (
      && First(states[n].log, i) && states[n].log[i].seqNo == number
      && states[n].tables.records[number].reading == ReadingOf(states[n].log[i])
      && (forall k :: First(states[n].log, k) && states[n].log[k].seqNo == number ==> k == i))
  {
    hide Step, Start, Honest, Inv;
    RunHonest(states, events, n);
    var s := states[n];
    assert HoldsFirst(s.log, s.tables, number);
    var i :| First(s.log, i) && s.log[i].seqNo == number && s.tables.records[number].reading == ReadingOf(s.log[i]);
    forall k | First(s.log, k) && s.log[k].seqNo == number
      ensures k == i
    {
      OneFirst(s.log, i, k);
    }
  }

  /** Whatever bytes the server answers, a row whose number was never transmitted is never acknowledged
      and is still on flash. */
  lemma UntransmittedKept(states: seq<Sys>, events: seq<Event>, n: nat, i: nat)
    requires IsRun(states, events) && n < |states| && i < |states[n].log| && states[n].log[i].seqNo !in states[n].sent
    ensures states[n].log[i].seqNo > DurableAck(states[n].q).body.acked && Kept(states[n], i)
  {
    hide Step, Start, SafeInv, Kept;
    RunSafe(states, events, n);
    UnsentKept(states[n], i);
  }

  lemma UnsentKept(s: Sys, i: nat)
    requires SafeInv(s) && i < |s.log| && s.log[i].seqNo !in s.sent
    ensures s.log[i].seqNo > DurableAck(s.q).body.acked && Kept(s, i)
  {
    hide DiskInv, EncodeRow, Backlog, Unacked, CursorIndex;
    UnackedOnFlash(s.q, s.log, i);
    InUnacked(s.log, DurableAck(s.q).body.acked, i);
    if s.q.on {
      CursorRefinesFullScan(s.q, s.log);
    }
  }

  /** The flash layout, the cursor and the backlog counter at every point of every run, power cuts
      included; and no step removes a segment that is still needed. */
  lemma LayoutAlways(states: seq<Sys>, events: seq<Event>, n: nat)
    requires IsRun(states, events) && n < |states|
    ensures var s := states[n];
      && Stored(s.q.segs, s.log, CpPos(DurableCp(s.q).body), DurableAck(s.q).body.cursorSegment)
      && CursorOk(s.log, DurableAck(s.q).body, CpPos(DurableCp(s.q).body))
      && (s.q.on ==> s.q.unacked == |Backlog(s.q)| && Backlog(s.q) == Unacked(s.log, s.q.ack.body.acked))
    ensures n < |events| ==> DeletionSafe(states[n].q, states[n + 1].q, states[n].log)
  {
    hide Step, Start, Stored, CursorOk, Ascending, Sound, Backlog, Unacked, CursorIndex, DeletionSafe;
    RunSafe(states, events, n);
    if states[n].q.on {
      CursorRefinesFullScan(states[n].q, states[n].log);
    }
    if n < |events| {
      StepSafe(states[n], events[n], states[n + 1]);
    }
  }

  /** Over every run: a boot that finishes leaves the segments as they were, if it could not list them, or
      32 strays fewer, or none; without strays only segments from the cursor's to the active one are
      on flash. */
  lemma BootLeaves(states: seq<Sys>, events: seq<Event>, n: nat)
    requires IsRun(states, events) && n < |events| && events[n].Boot? && states[n + 1].q.on
    ensures var q, q' := states[n].q, states[n + 1].q;
      || q'.segs == q.segs
      || |Strays(q')| == (if |Strays(q)| <= 32 then 0 else |Strays(q)| - 32)
    ensures var q' := states[n + 1].q;
      Strays(q') == {} ==>
        forall s :: s in q'.segs ==> DurableAck(q').body.cursorSegment <= s <= DurableCp(q').body.qSegment
  {
    hide Start, SafeInv, DiskInv, PowerOn, BeginVia, Strays, DurableCp, DurableAck;
    RunSafe(states, events, n);
    var s, s' := states[n], states[n + 1];
    assert Step(s, events[n], s');
    var steady, q1 :| BootStep(s, events[n].newBoot, steady, q1, s');
    DiskOf(s);
    PowerOnKeepsDisk(s.q, s.log, events[n].newBoot, q1);
    SameStrays(s.q, events[n].newBoot, q1);
    var listed: bool, m: Dev :| BeginVia(q1, steady, listed, m, s'.q);
    if listed {
      SweepLeavesOnlyNeeded(q1, s.log, steady, m, s'.q);
    } else {
      Unlisted(q1, steady, m, s'.q);
    }
    NoStraysMeans(s'.q);
  }

  lemma DiskOf(s: Sys)
    requires SafeInv(s)
    ensures DiskInv(s.q, s.log)
  {
    hide DiskInv;
  }

  lemma Unlisted(q: Dev, steady: bool, m: Dev, q': Dev)
    requires BeginVia(q, steady, false, m, q')
    ensures q'.segs == q.segs
  {
    hide Backlog, Newest;
  }

  lemma SameStrays(q: Dev, boot: u32, q1: Dev)
    requires PowerOn(q, boot, q1) && DurableCp(q1).body == DurableCp(q).body.(boot := DurableCp(q1).body.boot)
    requires DurableAck(q1) == DurableAck(q)
    ensures Strays(q1) == Strays(q) && q1.segs == q.segs
  {
    hide StraySegments, DurableCp, DurableAck;
  }

  lemma NoStraysMeans(q: Dev)
    ensures Strays(q) == {} ==>
      forall s :: s in q.segs ==> DurableAck(q).body.cursorSegment <= s <= DurableCp(q).body.qSegment
  {
    hide StraySegments, DurableCp, DurableAck;
    var active, cursor := DurableCp(q).body.qSegment, DurableAck(q).body.cursorSegment;
    assert forall s :: s in q.segs && Sweepable(active, cursor, s) ==> s in Strays(q);
  }

  // --- flash is given back -------------------------------------------------------------------------------

  /** No segment below the cursor's is left. */
  predicate NoneBehind(q: Dev)
  {
    forall s :: s in q.segs ==> DurableAck(q).body.cursorSegment <= s
  }

  /** A push that ends with power on gives back every segment it acknowledges the last row of: it leaves no
      stray that was not there before, whatever the server answered. */
  lemma PushFrees(s: Sys, e: Event, s': Sys)
    requires SafeInv(s) && Step(s, e, s') && e.Push? && s'.q.on
    ensures Strays(s'.q) <= Strays(s.q) && (NoneBehind(s.q) ==> NoneBehind(s'.q))
  {
    hide Inv, Batch, AckSpec, AckIn, Strays, NoneBehind, DeletionSafe;
    CpWritesCurrent(s.q, s.log);
    StepSafe(s, e, s');
    CpWritesCurrent(s'.q, s'.log);
    var batch := Batch(s.q);
    var a := if e.x.response.Some? then AckIn(e.x.response.value) else None;
    if batch != [] && a.Some? {
      AckFrees(s.q, BoundAckSeq(a.value, batch[|batch| - 1].seqNo).ack, e.boot, s'.q);
    }
  }

  lemma AckFrees(q: Dev, ackedSeq: u32, boot: u32, q': Dev)
    requires AckSpec(q, ackedSeq, boot, q') && q'.on && q.ack == DurableAck(q) && q'.ack == DurableAck(q')
    requires WalkLog(q.segs, q.Cursor().seg, q.Cursor().off, q.Frontier(), ackedSeq).pos.seg <= U32_MAX
    ensures Strays(q') <= Strays(q) && (NoneBehind(q) ==> NoneBehind(q'))
  {
    hide WalkLog, Newest;
    if ackedSeq > q.ack.body.acked {
      var w := WalkLog(q.segs, q.Cursor().seg, q.Cursor().off, q.Frontier(), ackedSeq);
      assert DurableCp(q') == DurableCp(q);
      assert q'.ack.body.cursorSegment == w.pos.seg;
      forall s | s in q'.segs
        ensures s in q.segs && !(q.Cursor().seg <= s < w.pos.seg)
      {
        assert s in q'.segs.Keys;
      }
    }
  }

  /** While power lasts nothing piles up behind the cursor. */
  lemma StepFrees(s: Sys, e: Event, s': Sys)
    requires SafeInv(s) && Step(s, e, s') && s.q.on && s'.q.on && !e.Boot? && NoneBehind(s.q)
    ensures NoneBehind(s'.q)
  {
    hide SafeInv, Inv, NoneBehind, AppendSpec, Admissible;
    match e
    case Append(row, uptime) =>
      var confirmed, steady :| AppendStep(s, row, uptime, confirmed, steady, s');
      InvIn(s);
      AppendFrees(s.q, s.log, row, uptime, confirmed, steady, s'.q);
    case Service(total, seqNo) => SameAckBehind(s.q, s'.q);
    case Push(x, boot) => PushFrees(s, e, s');
    case PowerCut =>
  }

  lemma InvIn(s: Sys)
    requires SafeInv(s)
    ensures Inv(s.q, s.log)
  {
    hide Inv;
  }

  lemma SameAckBehind(q: Dev, q': Dev)
    requires q'.segs == q.segs && q'.ak == q.ak && NoneBehind(q)
    ensures NoneBehind(q')
  {
  }

  lemma AppendFrees(q: Dev, log: seq<Row>, row: Row, uptime: u32, confirmed: bool, steady: bool, q': Dev)
    requires Inv(q, log) && q.on && AppendSpec(q, row, uptime, confirmed, steady, q') && NoneBehind(q)
    ensures NoneBehind(q')
  {
    hide Stored, CursorOk, Ascending, Sound, CursorIndex, KeepOk, EncodeRow, Newest;
    var keep :| AppendWith(q, row, uptime, confirmed, keep, steady, q');
    CursorBelowFrontier(log, q.ack.body, q.Frontier());
    StoredPos(q.segs, log, q.Frontier(), q.Cursor().seg);
    FrontierSmall(log, q.Frontier());
    assert q'.ak == q.ak;
    assert Target(q.cp.body).seg >= q.Frontier().seg;
  }

  /** Over every run, from a boot that left no stray on, as long as power lasts: the flash holds only segments
      from the cursor's to the one after the active one, so at most three more than the backlog fills. */
  lemma {:induction false} FlashBounded(states: seq<Sys>, events: seq<Event>, m: nat, n: nat)
    requires IsRun(states, events) && m <= n < |states| && NoneBehind(states[m].q)
    requires forall i :: m <= i <= n ==> states[i].q.on
    requires forall i :: m <= i < n ==> !events[i].Boot?
    ensures NoneBehind(states[n].q)
    ensures var q := states[n].q;
      forall s :: s in q.segs ==> DurableAck(q).body.cursorSegment <= s <= DurableCp(q).body.qSegment + 1
    ensures |states[n].q.segs| <= states[n].q.unacked / 5000 + 3
    decreases n - m
  {
    hide Step, Start, SafeInv, NoneBehind;
    if m < n {
      FlashBounded(states, events, m, n - 1);
      RunSafe(states, events, n - 1);
      StepFrees(states[n - 1], events[n - 1], states[n]);
    }
    RunSafe(states, events, n);
    FewSegments(states[n]);
  }

  lemma FewSegments(s: Sys)
    requires SafeInv(s) && s.q.on && NoneBehind(s.q)
    ensures var q := s.q;
      forall g :: g in q.segs ==> DurableAck(q).body.cursorSegment <= g <= DurableCp(q).body.qSegment + 1
    ensures |s.q.segs| <= s.q.unacked / 5000 + 3
  {
    hide CursorOk, Ascending, Sound, ClosedSegment, ActiveSegment, CursorIndex;
    var lo, hi := DurableAck(s.q).body.cursorSegment, DurableCp(s.q).body.qSegment;
    CursorBelowFrontier(s.log, s.q.ack.body, s.q.Frontier());
    CursorSpan(s.log, s.q.ack.body, s.q.Frontier());
    RangeSize(lo, hi + 2);
    assert s.q.segs.Keys <= SegmentRange(lo, hi + 2);
    SizeOfRest(SegmentRange(lo, hi + 2), s.q.segs.Keys);
    assert |s.q.segs| == |s.q.segs.Keys|;
  }

  lemma CursorSpan(log: seq<Row>, a: Ack, p: Pos)
    requires CursorOk(log, a, p) && PosOf(|log|, p)
    ensures CursorIndex(AckPos(a)) <= FirstRow(a.cursorSegment) + 5000 && FirstRow(p.seg) <= |log|
  {
  }

  lemma {:induction false} RangeSize(lo: nat, hi: nat)
    requires lo <= hi
    ensures |SegmentRange(lo, hi)| == hi - lo
    decreases hi - lo
  {
    if lo < hi {
      RangeSize(lo + 1, hi);
      assert lo !in SegmentRange(lo + 1, hi);
    }
  }

  // --- progress -----------------------------------------------------------------------------

  function Previous(log: seq<Row>, i: nat): nat
    requires i <= |log|
  {
    if i == 0 then 0 else log[i - 1].seqNo
  }

  /** No number is skipped: each row repeats the number before it or adds one. */
  predicate GapFree(log: seq<Row>)
  {
    forall i :: 0 <= i < |log| ==> log[i].seqNo <= Previous(log, i) + 1
  }

  /** The confirmed rows are numbered 1, 2, 3, ... */
  predicate Contiguous(log: seq<Row>)
  {
    forall i :: 0 <= i < |log| ==> log[i].seqNo == i + 1
  }

  /** The numbers the device can read back from a response. */
  predicate Readable31(log: seq<Row>)
  {
    forall i :: 0 <= i < |log| ==> log[i].seqNo < INT32_LIMIT
  }

  /** A push that reached the server and whose answer came back, with power staying on. */
  ghost predicate Completed(s: Sys, e: Event, s': Sys)
  {
    Step(s, e, s') && e.Push? && e.x.delivered && e.x.response.Some? && Honest(e, s') && s'.q.on
  }

  /** When no number was skipped a completed exchange acknowledges exactly what it sent, whatever was lost
      before: the backlog shrinks by the batch, or by more if the row after it repeats its last number. */
  lemma ExchangeProgress(s: Sys, e: Event, s': Sys)
    requires HonestInv(s) && s.q.on && GapFree(s.log) && Readable31(s.log) && Completed(s, e, s')
    ensures HonestInv(s') && s'.log == s.log
    ensures Batch(s.q) != [] ==> s'.q.ack.body.acked == Batch(s.q)[|Batch(s.q)| - 1].seqNo
    ensures s'.q.unacked <= s.q.unacked - |Batch(s.q)|
    ensures Contiguous(s.log) ==> s'.q.unacked == s.q.unacked - |Batch(s.q)|
  {
    hide Inv, Batch, StoredFrom, S.Watermark, AckSpec, AckIn, ResponseBody, Contiguous, GapFree;
    StepHonest(s, e, s');
    var batch := Batch(s.q);
    PushHonest(s, e.x, e.boot, s');
    BatchIsStretch(s.q, s.log);
    if batch != [] {
      var mark := S.Watermark(S.Resolved(s'.tables));
      ResolvedWhenStored(s'.log, s'.tables);
      BatchReached(s, s', batch);
      var tail :| e.x.response.value == ResponseBody(mark, tail);
      ResponseRead(mark, tail);
      CpWritesCurrent(s.q, s.log);
      AckKeepsInv(s.q, s.log, batch[|batch| - 1].seqNo, e.boot, s'.q);
      BatchIsStretch(s'.q, s'.log);
      CursorsDiffer(s, s', batch);
    }
  }

  /** Without a gap every number up to a row's own occurs by then. */
  lemma {:induction false} GapFreeFills(log: seq<Row>, j: nat, number: nat)
    requires GapFree(log) && j < |log| && 1 <= number <= log[j].seqNo
    ensures exists k :: 0 <= k <= j && log[k].seqNo == number
    decreases j
  {
    if number < log[j].seqNo {
      assert number <= Previous(log, j);
      GapFreeFills(log, j - 1, number);
    }
  }

  /** The server's watermark covers the batch and can be read back. */
  lemma BatchReached(s: Sys, s': Sys, batch: seq<Row>)
    requires HonestInv(s) && s.q.on && GapFree(s.log) && Readable31(s.log) && batch == Batch(s.q) != []
    requires StoredFrom(s.log, s'.tables) && s.tables.records.Keys <= s'.tables.records.Keys
    requires forall i :: 0 <= i < |batch| ==> batch[i].seqNo in s'.tables.records.Keys
    ensures batch[|batch| - 1].seqNo <= S.Watermark(s'.tables.records.Keys) < INT32_LIMIT
  {
    hide Inv, Batch, StoredFrom, GapFree, CursorIndex;
    CpWritesCurrent(s.q, s.log);
    BatchIsStretch(s.q, s.log);
    var c, n := CursorIndex(s.q.Cursor()), |batch|;
    var last := batch[n - 1].seqNo;
    assert batch[n - 1] == s.log[c + n - 1];
    S.WatermarkIsLargest(s.tables.records.Keys, s.q.ack.body.acked);
    forall i | 1 <= i <= last
      ensures i in s'.tables.records.Keys
    {
      if i > s.q.ack.body.acked {
        GapFreeFills(s.log, c + n - 1, i);
        var k :| 0 <= k <= c + n - 1 && s.log[k].seqNo == i;
        assert batch[k - c] == s.log[k];
      }
    }
    S.WatermarkIsLargest(s'.tables.records.Keys, last);
    WatermarkReadable(s.log, s'.tables);
  }

  lemma WatermarkReadable(log: seq<Row>, t: S.Tables)
    requires StoredFrom(log, t) && Readable31(log)
    ensures S.Watermark(t.records.Keys) < INT32_LIMIT
  {
    var w := S.Watermark(t.records.Keys);
    S.WatermarkIsLargest(t.records.Keys, w);
    if w > 0 {
      assert w in t.records.Keys;
      assert HoldsFirst(log, t, w);
    }
  }

  lemma CursorsDiffer(s: Sys, s': Sys, batch: seq<Row>)
    requires Inv(s.q, s.log) && s.q.on && Inv(s'.q, s.log) && s'.q.on && s'.log == s.log && batch == Batch(s.q) != []
    requires s'.q.ack.body.acked == batch[|batch| - 1].seqNo
    ensures CursorIndex(s'.q.Cursor()) >= CursorIndex(s.q.Cursor()) + |batch|
    ensures Contiguous(s.log) ==> CursorIndex(s'.q.Cursor()) == CursorIndex(s.q.Cursor()) + |batch|
  {
    hide Inv, Batch, CursorIndex;
    BatchIsStretch(s.q, s.log);
    BatchIsStretch(s'.q, s.log);
    var c, n := CursorIndex(s.q.Cursor()), |batch|;
    assert batch[n - 1] == s.log[c + n - 1];
    assert s.log[c + n - 1].seqNo <= s'.q.ack.body.acked;
    if c + n < |s.log| && Contiguous(s.log) {
      assert s.log[c + n].seqNo > s'.q.ack.body.acked;
    }
  }

  /** A backlog of b rows drains in b / 50, rounded up, completed exchanges. */
  lemma {:induction false} Drains(states: seq<Sys>, events: seq<Event>)
    requires |states| == |events| + 1
    requires HonestInv(states[0]) && states[0].q.on && GapFree(states[0].log) && Readable31(states[0].log)
    requires forall i :: 0 <= i < |events| ==> Completed(states[i], events[i], states[i + 1])
    ensures var s, t := states[0], states[|events|];
      var left := if s.q.unacked <= 50 * |events| then 0 else s.q.unacked - 50 * |events|;
      && HonestInv(t) && t.q.on && t.log == s.log
      && t.q.unacked <= left && (Contiguous(s.log) ==> t.q.unacked == left)
    decreases |events|
  {
    hide Completed, HonestInv, Contiguous, GapFree, Readable31, Batch;
    if events != [] {
      var n := |events| - 1;
      forall i | 0 <= i < n
        ensures Completed(states[..n + 1][i], events[..n][i], states[..n + 1][i + 1])
      {
      }
      Drains(states[..n + 1], events[..n]);
      ExchangeProgress(states[n], events[n], states[n + 1]);
      StaysOn(states[n], events[n], states[n + 1]);
      BatchSize(states[n]);
    }
  }

  lemma StaysOn(s: Sys, e: Event, s': Sys)
    requires Completed(s, e, s')
    ensures s'.q.on
  {
    hide Step, Honest;
  }

  lemma BatchSize(s: Sys)
    requires HonestInv(s) && s.q.on
    ensures |Batch(s.q)| == Min(50, s.q.unacked)
  {
    hide Inv, Batch, StoredFrom;
    BatchIsStretch(s.q, s.log);
  }

  /** A missing number stops the acknowledgement for good: nothing at or beyond it is ever acknowledged. */
  lemma GapFreezesAck(s: Sys, missing: nat)
    requires HonestInv(s) && missing >= 1 && forall i :: 0 <= i < |s.log| ==> s.log[i].seqNo != missing
    ensures DurableAck(s.q).body.acked < missing
  {
    hide Inv;
    assert missing in s.tables.records ==> HoldsFirst(s.log, s.tables, missing);
    assert missing !in s.tables.records;
    S.WatermarkIsLargest(s.tables.records.Keys, missing);
  }

  /** Row `gap` skips at least one number. */
  predicate Skips(log: seq<Row>, gap: nat)
  {
    gap < |log| && log[gap].seqNo > Previous(log, gap) + 1
  }

  /** Nothing past the last number before a skipped one is acknowledged. */
  lemma GapBelow(s: Sys, gap: nat)
    requires HonestInv(s) && Skips(s.log, gap)
    ensures DurableAck(s.q).body.acked <= Previous(s.log, gap) < s.log[gap].seqNo
  {
    hide HonestInv;
    AscendingHonest(s);
    var missing := Previous(s.log, gap) + 1;
    forall k | 0 <= k < |s.log|
      ensures s.log[k].seqNo != missing
    {
      if k < gap {
        assert s.log[k].seqNo <= s.log[gap - 1].seqNo;
      } else {
        assert s.log[gap].seqNo <= s.log[k].seqNo;
      }
    }
    GapFreezesAck(s, missing);
  }

  /** A drained queue means that no number was skipped: with ExchangeProgress, the backlog can be brought
      to zero exactly when the confirmed rows have no gap. */
  lemma DrainedMeansGapFree(s: Sys)
    requires HonestInv(s) && s.q.on && s.q.unacked == 0
    ensures GapFree(s.log)
  {
    hide Inv, Batch, StoredFrom;
    BatchIsStretch(s.q, s.log);
    CpWritesCurrent(s.q, s.log);
    forall i | 0 <= i < |s.log|
      ensures s.log[i].seqNo <= Previous(s.log, i) + 1
    {
      if Skips(s.log, i) {
        GapBelow(s, i);
      }
    }
  }

  lemma AscendingHonest(s: Sys)
    requires HonestInv(s)
    ensures Ascending(s.log)
  {
    hide Inv, StoredFrom;
    AscendingOf(s.q, s.log);
  }

  lemma {:induction false} LogOnlyGrows(states: seq<Sys>, events: seq<Event>, m: nat, n: nat)
    requires IsRun(states, events) && m <= n < |states|
    ensures states[m].log <= states[n].log
    decreases n - m
  {
    hide Step, Start;
    if m < n {
      LogOnlyGrows(states, events, m, n - 1);
      RunSafe(states, events, n - 1);
      StepSafe(states[n - 1], events[n - 1], states[n]);
    }
  }

  predicate AmongFirst(row: Row, log: seq<Row>, n: nat)
  {
    exists k :: 0 <= k < n && k < |log| && row == log[k]
  }

  /** Once a number has been skipped, in the whole rest of the run it is never acknowledged and no batch
      ever reaches the fiftieth row past it. */
  lemma SkippedNumberFreezesForever(states: seq<Sys>, events: seq<Event>, m: nat, n: nat, gap: nat)
    requires HonestRun(states, events) && m <= n < |states| && Skips(states[m].log, gap)
    ensures var s := states[n];
      && gap < |s.log| && DurableAck(s.q).body.acked <= Previous(s.log, gap) < s.log[gap].seqNo
      && (s.q.on ==> forall i :: 0 <= i < |Batch(s.q)| ==> AmongFirst(Batch(s.q)[i], s.log, gap + 50))
  {
    hide Step, Start, Honest, HonestInv, Batch;
    LogOnlyGrows(states, events, m, n);
    RunHonest(states, events, n);
    var s := states[n];
    assert s.log[gap] == states[m].log[gap] && Previous(s.log, gap) == Previous(states[m].log, gap);
    GapBelow(s, gap);
    if s.q.on {
      BatchesStopAt(s, gap);
    }
  }

  lemma BatchesStopAt(s: Sys, gap: nat)
    requires HonestInv(s) && s.q.on && gap < |s.log| && DurableAck(s.q).body.acked < s.log[gap].seqNo
    ensures forall i :: 0 <= i < |Batch(s.q)| ==> AmongFirst(Batch(s.q)[i], s.log, gap + 50)
  {
    hide Inv, Batch, StoredFrom, CursorIndex;
    BatchIsStretch(s.q, s.log);
    CpWritesCurrent(s.q, s.log);
    var c := CursorIndex(s.q.Cursor());
    assert s.log[gap].seqNo > s.q.ack.body.acked;
    forall i | 0 <= i < |Batch(s.q)|
      ensures AmongFirst(Batch(s.q)[i], s.log, gap + 50)
    {
      assert Batch(s.q)[i] == s.log[c + i];
    }
  }
}
