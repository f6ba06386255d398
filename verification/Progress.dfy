/** What can always happen: when nothing fails, rows are confirmed and exchanges complete. */
module Progress {
  import opened Bytes
  import opened Records
  import opened PingPong
  import opened Storage
  import opened QueueSpec
  import opened QueueLog
  import opened QueueInvariant
  import opened AckParsing
  import opened Protocol
  import opened Delivery

  /** The device after an append that nothing failed in, with power on or cut right after it. */
  function Appended(q: Dev, row: Row, on: bool): Dev
  {
    var t := Target(q.cp.body);
    var file := FileOf(q.segs, t.seg);
    var keep := IdealKeep(file, t.off);
    IdealKeepOk(file, t.off, true);
    var cp := Next(q.cp, ConfirmedUpTo(q.cp.body, t.seg, Wrap32(keep + ROW)));
    q.(segs := q.segs[t.seg := file[..keep] + EncodeRow(row)], cp := cp, ck := Put(q.ck, cp),
       unacked := q.unacked + 1, on := on)
  }

  lemma AppendedConfirms(s: Sys, row: Row, uptime: u32, on: bool)
    ensures AppendStep(s, row, uptime, true, true, s.(q := Appended(s.q, row, on), log := s.log + [row]))
  {
    hide KeepOk, EncodeRow, IdealKeep;
    var t := Target(s.q.cp.body);
    var file := FileOf(s.q.segs, t.seg);
    IdealKeepOk(file, t.off, true);
    assert AppendWith(s.q, row, uptime, true, IdealKeep(file, t.off), true, Appended(s.q, row, on));
  }

  /** The device after an append that could not open its segment. */
  function Refused(q: Dev, uptime: u32): Dev
  {
    var fail := Next(q.fail, CountFailure(q.fail.body, uptime, OPEN_FAILED));
    q.(fail := fail, fl := Put(q.fl, fail))
  }

  lemma RefusedFails(s: Sys, row: Row, uptime: u32)
    requires s.q.on
    ensures AppendStep(s, row, uptime, false, true, s.(q := Refused(s.q, uptime)))
  {
    hide KeepOk, EncodeRow, IdealKeep;
    var t := Target(s.q.cp.body);
    var file := FileOf(s.q.segs, t.seg);
    IdealKeepOk(file, t.off, true);
    assert AppendWith(s.q, row, uptime, false, IdealKeep(file, t.off), true, Refused(s.q, uptime));
  }

  /** When no storage operation fails, an admissible row is confirmed. */
  lemma AppendWorks(s: Sys, row: Row, uptime: u32)
    requires SafeInv(s) && s.q.on && DurableCp(s.q).writes < U32_MAX && DurableAck(s.q).writes < U32_MAX
    requires Telemetry(row) && Admissible(row, s.log, s.q.ack.body.acked)
    ensures exists s' :: Step(s, Append(row, uptime), s') && s'.q.on && s'.log == s.log + [row] && SafeInv(s')
  {
    hide Inv, SafeInv, Admissible, AppendSpec;
    var s' := s.(q := Appended(s.q, row, true), log := s.log + [row]);
    AppendedConfirms(s, row, uptime, true);
    assert Step(s, Append(row, uptime), s');
    StepSafe(s, Append(row, uptime), s');
  }

  /** The device after a boot in which nothing fails: memory recovered, all strays removed. */
  function Booted(q: Dev, boot: u32): Dev
  {
    var m := q.(on := true, cp := DurableCp(q).(body := DurableCp(q).body.(boot := boot)), ack := DurableAck(q),
                segs := map seg | seg in q.segs && seg !in Strays(q) :: q.segs[seg]);
    m.(fail := Newest(q.fl, ZERO_FAILURE), unacked := |Backlog(m)|)
  }

  /** From every state of a run, with no more strays than one sweep takes, a boot can succeed; it leaves only
      segments from the cursor's to the active one. */
  lemma BootWorks(s: Sys, boot: u32)
    requires SafeInv(s) && DurableCp(s.q).writes < U32_MAX && DurableAck(s.q).writes < U32_MAX
    requires |Strays(s.q)| <= MAX_SWEEP
    ensures var s' := s.(q := Booted(s.q, boot));
      Step(s, Boot(boot), s') && SafeInv(s') && Strays(s'.q) == {}
  {
    hide Inv, SafeInv, DurableCp, DurableAck, Backlog, Newest, DeletionSafe;
    var q' := Booted(s.q, boot);
    var q1 := s.q.(on := true, cp := DurableCp(s.q).(body := DurableCp(s.q).body.(boot := boot)));
    BootBegins(s, q1, q');
    SameDurable(s.q, q');
    assert PowerOn(s.q, boot, q1);
    assert BootStep(s, boot, true, q1, s.(q := q'));
    assert Step(s, Boot(boot), s.(q := q'));
    StepSafe(s, Boot(boot), s.(q := q'));
  }

  lemma SameDurable(q: Dev, q': Dev)
    requires q'.ck == q.ck && q'.ak == q.ak
    ensures DurableCp(q') == DurableCp(q) && DurableAck(q') == DurableAck(q)
  {
  }

  lemma BootBegins(s: Sys, q1: Dev, q': Dev)
    requires SafeInv(s) && |Strays(s.q)| <= MAX_SWEEP && q' == Booted(s.q, q1.cp.body.boot)
    requires q1 == s.q.(on := true, cp := q1.cp)
    requires q1.cp == DurableCp(s.q).(body := DurableCp(s.q).body.(boot := q1.cp.body.boot))
    ensures BeginSpec(q1, true, q')
  {
    hide Stored, CursorOk, Ascending, Sound, CursorIndex, Backlog, RamInv, StraySegments, Sweepable;
    var cp, ack := DurableCp(s.q), DurableAck(s.q);
    NotRegressed(s.q.segs, s.log, CpPos(cp.body), ack.body.cursorSegment);
    var before := q1.(ack := ack);
    var m := q'.(fail := q1.fail, unacked := q1.unacked);
    assert before.segs.Keys - m.segs.Keys == Strays(s.q);
    assert Swept(before, m);
    assert SweepSpec(before, true, m);
    BacklogIgnoresCounter(m, q');
    assert BeginVia(q1, true, true, m, q');
  }

  /** The device after an acknowledgement with nothing failing. */
  function Acked(q: Dev, ackedSeq: u32, boot: u32): Dev
  {
    if ackedSeq <= q.ack.body.acked then q
    else
      var w := WalkLog(q.segs, q.Cursor().seg, q.Cursor().off, q.Frontier(), ackedSeq);
      var passed := SegmentRange(q.Cursor().seg, w.pos.seg);
      var ack := Next(q.ack, Ack(ackedSeq, boot, Wrap32(w.pos.seg), Wrap32(w.pos.off)));
      q.(segs := map s | s in q.segs && s !in passed :: q.segs[s], ack := ack, ak := Put(q.ak, ack),
         unacked := if w.cells <= q.unacked then q.unacked - w.cells else 0)
  }

  lemma AckedWorks(q: Dev, ackedSeq: u32, boot: u32)
    requires q.on
    ensures AckSpec(q, ackedSeq, boot, Acked(q, ackedSeq, boot)) && Acked(q, ackedSeq, boot).on
  {
    hide WalkLog, SegmentRange;
  }

  /** When nothing is lost, an exchange completes: with no number skipped it then brings the backlog
      down by at least the batch. */
  lemma ExchangeWorks(s: Sys, boot: u32, nowMs: int, kver: int, tail: string)
    requires HonestInv(s) && s.q.on && GapFree(s.log) && Readable31(s.log)
    requires DurableCp(s.q).writes < U32_MAX && DurableAck(s.q).writes < U32_MAX
    ensures exists e, s' :: Completed(s, e, s') && HonestInv(s') && s'.q.unacked <= s.q.unacked - Min(50, s.q.unacked)
  {
    hide HonestInv, Batch, AckSpec, AckIn, ResponseBody, S.Watermark, S.StoreAll, GapFree, Acked;
    var batch := Batch(s.q);
    var tables := S.StoreAll(s.tables, WireAll(batch), nowMs, kver);
    var after := if batch == [] then s.tables else tables;
    var response := ResponseBody(S.Watermark(S.Resolved(after)), tail);
    var e := Push(Exchange(true, Some(response), nowMs, kver), boot);
    var a := AckIn(response);
    var s' := s;
    if batch != [] {
      var maxSent := batch[|batch| - 1].seqNo;
      var q' := s.q;
      if a.Some? {
        q' := Acked(s.q, BoundAckSeq(a.value, maxSent).ack, boot);
        AckedWorks(s.q, BoundAckSeq(a.value, maxSent).ack, boot);
      }
      s' := Sys(q', s.log, tables, s.sent + SeqsOf(batch));
      assert ResponseEffect(s.q, maxSent, Some(response), boot, q');
    }
    assert PushStep(s, e.x, boot, s');
    assert Step(s, e, s') && s'.tables == after;
    assert Honest(e, s');
    assert Completed(s, e, s');
    ExchangeProgress(s, e, s');
    BatchSize(s);
  }

  /** However large the backlog, it can be drained: some sequence of b/50 exchanges, rounded up, empties
      it, each of them completed. */
  lemma {:induction false} DrainWorks(s: Sys, exchanges: nat)
    requires HonestInv(s) && s.q.on && GapFree(s.log) && Readable31(s.log)
    requires DurableCp(s.q).writes < U32_MAX && DurableAck(s.q).writes + exchanges < U32_MAX
    requires s.q.unacked <= 50 * exchanges
    ensures exists states: seq<Sys>, events: seq<Event> :: Draining(s, exchanges, states, events)
    decreases exchanges
  {
    hide HonestInv, Completed, GapFree, Readable31, DurableCp, DurableAck;
    if exchanges == 0 {
      assert Draining(s, 0, [s], []);
    } else {
      ExchangeWorks(s, 0, 0, 0, []);
      var e, s1 :| Completed(s, e, s1) && HonestInv(s1) && s1.q.unacked <= s.q.unacked - Min(50, s.q.unacked);
      ExchangeKeepsCounters(s, e, s1);
      StaysOn(s, e, s1);
      DrainWorks(s1, exchanges - 1);
      var states: seq<Sys>, events: seq<Event> :| Draining(s1, exchanges - 1, states, events);
      var longer, all := [s] + states, [e] + events;
      forall i | 0 <= i < |all|
        ensures Completed(longer[i], all[i], longer[i + 1])
      {
        if i > 0 {
          assert longer[i] == states[i - 1] && all[i] == events[i - 1] && longer[i + 1] == states[i];
        }
      }
      assert Draining(s, exchanges, longer, all);
    }
  }

  /** A chain of completed exchanges from `s` that ends with nothing left to send. */
  ghost predicate Draining(s: Sys, exchanges: nat, states: seq<Sys>, events: seq<Event>)
  {
    && |events| == exchanges && |states| == exchanges + 1 && states[0] == s && states[exchanges].q.unacked == 0
    && forall i :: 0 <= i < |events| ==> Completed(states[i], events[i], states[i + 1])
  }

  /** An exchange writes the acknowledgement record at most once and the checkpoint not at all. */
  lemma ExchangeKeepsCounters(s: Sys, e: Event, s': Sys)
    requires HonestInv(s) && HonestInv(s') && Completed(s, e, s')
    ensures s'.log == s.log && DurableCp(s'.q) == DurableCp(s.q)
    ensures DurableAck(s'.q).writes <= DurableAck(s.q).writes + 1
  {
    hide Inv, Batch, AckSpec, StoredFrom, S.Watermark, AckIn, ResponseBody, Honest, DurableCp, DurableAck, Wrap32;
    CpWritesCurrent(s.q, s.log);
    CpWritesCurrent(s'.q, s'.log);
    var a := AckIn(e.x.response.value);
    var batch := Batch(s.q);
    if batch != [] && a.Some? {
      AckCounters(s.q, BoundAckSeq(a.value, batch[|batch| - 1].seqNo).ack, e.boot, s'.q);
    }
  }

  lemma AckCounters(q: Dev, ackedSeq: u32, boot: u32, q': Dev)
    requires AckSpec(q, ackedSeq, boot, q')
    ensures DurableCp(q') == DurableCp(q) && q'.ack.writes <= q.ack.writes + 1
  {
    hide WalkLog, SegmentRange, Persisted;
  }
}
