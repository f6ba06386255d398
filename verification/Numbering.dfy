/** The sketch's own numbering over whole runs: exactly when a number is skipped, and exactly when one repeats. */
module Numbering {
  import opened Records
  import opened QueueSpec
  import opened QueueInvariant
  import opened Protocol
  import opened Delivery
  import opened Sketch
  import opened QueueLog
  import opened Recovery

  // --- what each event does to log and numbering -----------------------------------------------------

  /** The checkpoint of the tick's number is durable. */
  predicate NumberLanded(f': Fw)
  {
    DurableCp(f'.sys.q).body.seqNo == f'.seqNo
  }

  /** A tick confirms its row or not, and its number's checkpoint lands or not, in any combination; it
      lands whenever power stays on. */
  lemma TickOutcome(f: Fw, e: FwEvent, f': Fw)
    requires SafeInv(f.sys) && NumberInv(f) && FwStep(f, e, f') && e.Tick?
    ensures f.seqNo == Top(f.sys.q) && f'.seqNo == f.seqNo + 1
    ensures f'.sys.log == f.sys.log || f'.sys.log == f.sys.log + [e.sample.(seqNo := f'.seqNo)]
    ensures Top(f'.sys.q) == if NumberLanded(f') then f'.seqNo else f.seqNo
    ensures f'.sys.q.on ==> NumberLanded(f')
    ensures DurableCp(f'.sys.q).writes <= DurableCp(f.sys.q).writes + 2 && DurableAck(f'.sys.q) == DurableAck(f.sys.q)
  {
    hide SafeInv, Inv, AppendSpec, ServiceStep, Numbered, DurableCp, DurableAck;
    var m :| TickStep(f, e.sample, e.uptime, m, f');
    TickAppends(f, e.sample, e.uptime, m, f');
    if m.q.on {
      var total :| ServiceStep(m.q, total, f'.seqNo, f'.sys.q);
      StepKeeps(f.sys, Append(e.sample.(seqNo := f'.seqNo), e.uptime), m);
      InvOf(m);
      CpWritesCurrent(m.q, m.log);
      ServiceDurable(m.q, m.log, total, f'.seqNo, f'.sys.q);
    }
  }

  /** Nothing but a tick changes the log or the number a boot would resume from. */
  lemma OtherOutcome(f: Fw, e: FwEvent, f': Fw)
    requires SafeInv(f.sys) && NumberInv(f) && FwStep(f, e, f') && !e.Tick?
    ensures f'.sys.log == f.sys.log && Top(f'.sys.q) == Top(f.sys.q)
  {
    hide SafeInv, Inv, Numbered, PushStep, BootStep, TickStep, DurableCp, DurableAck;
    InvOf(f.sys);
    var log := f.sys.log;
    match e
    case Background(total) =>
      CpWritesCurrent(f.sys.q, log);
      CpNumberCurrent(f.sys.q, log);
      ServiceDurable(f.sys.q, log, total, f.sys.q.cp.body.seqNo, f'.sys.q);
    case PushCycle(x, boot) => PushWithin(f.sys, x, boot, f'.sys, f.seqNo);
    case Cut => CutDurable(f.sys.q);
    case PowerUp(boot) => BootDurable(f.sys, boot, f'.sys);
  }

  lemma CutDurable(q: Dev)
    ensures DurableCp(q.(on := false)) == DurableCp(q) && DurableAck(q.(on := false)) == DurableAck(q)
  {
  }

  lemma LastIsLargest(s: Sys)
    requires SafeInv(s)
    ensures Numbered(s.log, Previous(s.log, |s.log|))
  {
    hide Inv;
    AscendingOf(s.q, s.log);
  }

  // --- when a number is skipped ------------------------------------------------------------------------

  /** A tick that uses up a new number without a row: its append fails with power on, and the number's
      checkpoint lands. */
  ghost predicate Burns(f: Fw, e: FwEvent, f': Fw)
  {
    e.Tick? && f'.sys.log == f.sys.log && !Repeats(f) && NumberLanded(f')
  }

  /** No gap so far, and no number known to the device beyond the last confirmed one. */
  ghost predicate GapInv(f: Fw)
  {
    GapFree(f.sys.log) && Top(f.sys.q) <= Previous(f.sys.log, |f.sys.log|)
  }

  /** One more row keeps a log free of gaps exactly when it adds at most one. */
  lemma GapFreeExtends(log: seq<Row>, row: Row)
    ensures GapFree(log + [row]) <==> GapFree(log) && row.seqNo <= Previous(log, |log|) + 1
    ensures Skips(log + [row], |log|) <==> row.seqNo > Previous(log, |log|) + 1
    ensures Previous(log + [row], |log| + 1) == row.seqNo
  {
    var longer := log + [row];
    assert forall i :: 0 <= i <= |log| ==> Previous(longer, i) == Previous(log, i);
    assert forall i :: 0 <= i < |log| ==> longer[i] == log[i];
    assert longer[|log|] == row;
  }

  /** Over one event: the numbering is without a gap afterwards exactly when it was before and no number
      was burnt; and a confirmed row skips a number exactly when one had been burnt. */
  lemma StepGap(f: Fw, e: FwEvent, f': Fw)
    requires SafeInv(f.sys) && NumberInv(f) && FwStep(f, e, f')
    ensures GapInv(f') <==> GapInv(f) && !Burns(f, e, f')
    ensures f'.sys.log != f.sys.log ==> e.Tick? && |f'.sys.log| == |f.sys.log| + 1
    ensures f'.sys.log != f.sys.log ==> (GapFree(f'.sys.log) <==> GapInv(f))
    ensures f'.sys.log != f.sys.log && GapFree(f.sys.log) && !GapInv(f) ==> Skips(f'.sys.log, |f.sys.log|)
  {
    hide SafeInv, FwStep, Top, GapFree, Skips, NumberLanded;
    if e.Tick? {
      TickOutcome(f, e, f');
      LastIsLargest(f.sys);
      GapFreeExtends(f.sys.log, e.sample.(seqNo := f'.seqNo));
    } else {
      OtherOutcome(f, e, f');
    }
  }

  /** The first number to be skipped is the first to be burnt: over every run, whatever is cut or lost, the
      device is without a gap exactly as long as no number has been burnt. */
  lemma {:induction false} GapInvExactly(states: seq<Fw>, events: seq<FwEvent>, n: nat)
    requires FwRun(states, events) && n < |states|
    ensures GapInv(states[n]) <==> forall i :: 0 <= i < n ==> !Burns(states[i], events[i], states[i + 1])
  {
    hide FwStep, SafeInv, HonestInv, NumberInv, GapInv, Burns;
    if n == 0 {
      StartGapFree(states[0]);
    } else {
      GapInvExactly(states, events, n - 1);
      FwRunSafe(states, events, n - 1);
      StepGap(states[n - 1], events[n - 1], states[n]);
    }
  }

  lemma StartGapFree(f: Fw)
    requires Start(f.sys)
    ensures GapInv(f)
  {
  }

  /** Over every run: the confirmed numbers have a gap exactly when some number was burnt and a row was
      confirmed after it. */
  lemma {:induction false} GapFreeExactly(states: seq<Fw>, events: seq<FwEvent>, n: nat)
    requires FwRun(states, events) && n < |states|
    ensures GapFree(states[n].sys.log) <==>
      forall i :: 0 <= i < n && Burns(states[i], events[i], states[i + 1]) ==>
        |states[i].sys.log| == |states[n].sys.log|
  {
    hide FwStep, SafeInv, HonestInv, NumberInv, GapInv, Burns, GapFree;
    if n == 0 {
      StartGapFreeLog(states[0]);
    } else {
      GapFreeExactly(states, events, n - 1);
      GapInvExactly(states, events, n - 1);
      FwRunSafe(states, events, n - 1);
      StepGap(states[n - 1], events[n - 1], states[n]);
      BurnsNoRow(states[n - 1], events[n - 1], states[n]);
      forall i | 0 <= i < n
        ensures |states[i].sys.log| <= |states[n - 1].sys.log|
      {
        FwLogGrows(states, events, i, n - 1);
      }
    }
  }

  lemma StartGapFreeLog(f: Fw)
    requires Start(f.sys)
    ensures GapFree(f.sys.log)
  {
  }

  lemma BurnsNoRow(f: Fw, e: FwEvent, f': Fw)
    ensures Burns(f, e, f') ==> f'.sys.log == f.sys.log
  {
    hide NumberLanded, Repeats;
  }

  lemma {:induction false} FwLogGrows(states: seq<Fw>, events: seq<FwEvent>, m: nat, n: nat)
    requires FwRun(states, events) && m <= n < |states|
    ensures states[m].sys.log <= states[n].sys.log
    decreases n - m
  {
    hide FwStep, FwHonest, SafeInv, HonestInv, NumberInv;
    if m < n {
      FwLogGrows(states, events, m, n - 1);
      FwRunSafe(states, events, n - 1);
      FwStepKeeps(states[n - 1], events[n - 1], states[n]);
    }
  }

  /** From a gap on, in the whole rest of the firmware's run, the acknowledgement never passes the last
      number before the gap. */
  lemma GapFreezesFirmware(states: seq<Fw>, events: seq<FwEvent>, m: nat, n: nat, gap: nat)
    requires FwHonestRun(states, events) && m <= n < |states| && Skips(states[m].sys.log, gap)
    ensures gap < |states[n].sys.log| && DurableAck(states[n].sys.q).body.acked <= Previous(states[m].sys.log, gap)
  {
    hide FwRun, SafeInv, HonestInv, NumberInv;
    assert FwRun(states, events);
    FwLogGrows(states, events, m, n);
    FwRunSafe(states, events, n);
    var a, b := states[m].sys.log, states[n].sys.log;
    assert b[gap] == a[gap] && Previous(b, gap) == Previous(a, gap);
    GapBelow(states[n].sys, gap);
  }

  // --- when a number repeats ---------------------------------------------------------------------------

  /** Over one event: the next number will be a repeated one exactly when this was a tick whose number did
      not land and whose row was confirmed, or it was due to repeat already. */
  lemma StepRepeats(f: Fw, e: FwEvent, f': Fw)
    requires SafeInv(f.sys) && NumberInv(f) && FwStep(f, e, f')
    ensures Repeats(f') <==>
      if e.Tick? then !NumberLanded(f') && (|f'.sys.log| > |f.sys.log| || Repeats(f)) else Repeats(f)
  {
    hide SafeInv, FwStep, Top, NumberLanded;
    if e.Tick? {
      TickOutcome(f, e, f');
      var row := e.sample.(seqNo := f'.seqNo);
      assert f'.sys.log == f.sys.log + [row] ==> f'.sys.log[|f.sys.log|] == row;
      assert forall k :: 0 <= k < |f.sys.log| ==> f'.sys.log[k] == f.sys.log[k];
    } else {
      OtherOutcome(f, e, f');
    }
  }

  /** Event `i` was a tick cut between its row's checkpoint and its number's, and no number's checkpoint has
      landed since. */
  ghost predicate CutTick(states: seq<Fw>, events: seq<FwEvent>, n: nat, i: int)
    requires |states| == |events| + 1 && n <= |events|
  {
    && 0 <= i < n && events[i].Tick? && |states[i + 1].sys.log| > |states[i].sys.log|
    && forall j :: i <= j < n && events[j].Tick? ==> !NumberLanded(states[j + 1])
  }

  /** Over every run: the next number will repeat exactly when there was such a cut. */
  lemma {:induction false} RepeatsExactly(states: seq<Fw>, events: seq<FwEvent>, n: nat)
    requires FwRun(states, events) && n < |states|
    ensures Repeats(states[n]) <==> exists i :: CutTick(states, events, n, i)
  {
    hide FwStep, SafeInv, HonestInv, NumberInv, Repeats, NumberLanded;
    if n == 0 {
      StartNoRepeat(states[0]);
    } else {
      var f, e, f' := states[n - 1], events[n - 1], states[n];
      RepeatsExactly(states, events, n - 1);
      FwRunSafe(states, events, n - 1);
      StepRepeats(f, e, f');
      if Repeats(f') && Repeats(f) {
        var i :| CutTick(states, events, n - 1, i);
        assert CutTick(states, events, n, i);
      } else if Repeats(f') {
        assert CutTick(states, events, n, n - 1);
      }
      if i :| CutTick(states, events, n, i) {
        assert i < n - 1 ==> CutTick(states, events, n - 1, i);
      }
    }
  }

  lemma StartNoRepeat(f: Fw)
    requires Start(f.sys)
    ensures !Repeats(f)
  {
  }

  /** Over every run: a confirmed row carries a number that an earlier one carried exactly when power was cut
      between the earlier row's checkpoint and its number's, and no number has landed since. */
  lemma RepeatedExactly(states: seq<Fw>, events: seq<FwEvent>, n: nat)
    requires FwRun(states, events) && n < |events| && |states[n + 1].sys.log| > |states[n].sys.log|
    ensures |states[n + 1].sys.log| == |states[n].sys.log| + 1
    ensures First(states[n + 1].sys.log, |states[n].sys.log|) <==> !exists i :: CutTick(states, events, n, i)
  {
    hide FwStep, SafeInv, HonestInv, CutTick;
    var f, e, f' := states[n], events[n], states[n + 1];
    FwRunSafe(states, events, n);
    RepeatsExactly(states, events, n);
    ConfirmedByTick(f, e, f');
    TickOutcome(f, e, f');
    var log := f.sys.log;
    assert forall k :: 0 <= k < |log| ==> f'.sys.log[k] == log[k];
  }

  lemma ConfirmedByTick(f: Fw, e: FwEvent, f': Fw)
    requires SafeInv(f.sys) && NumberInv(f) && FwStep(f, e, f') && |f'.sys.log| > |f.sys.log|
    ensures e.Tick?
  {
    hide SafeInv, NumberInv, FwStep;
    if !e.Tick? {
      OtherOutcome(f, e, f');
    }
  }

  // --- after a checkpoint regression -------------------------------------------------------------------

  /** After a boot that recovered from a regression the sketch's next number is new, in the sense that no row
      still to be delivered carries it or a later one, exactly when the number resumed from reaches the last
      confirmed row's; the queue may take it exactly when it is at most one short. Otherwise new rows repeat
      numbers of adopted ones and the server keeps the adopted readings. */
  lemma NumberAfterRegression(q: Dev, log: seq<Row>, f: Pos, q': Dev, row: Row)
    requires WentBack(q, log, f) && Regressed(q.segs, q.cp.body.qSegment) && SweepSpec(q, true, q') && q'.on
    requires row.seqNo == F.ResumeSeqFloor(q'.cp.body.seqNo, q'.ack.body.acked) + 1
    ensures log != []
    ensures var resumed, last := row.seqNo - 1, log[|log| - 1].seqNo;
      && ((forall r :: r in Unacked(log, q'.ack.body.acked) ==> r.seqNo < row.seqNo) <==> last <= resumed)
      && (Admissible(row, log, q'.ack.body.acked) <==> last <= resumed + 1)
    ensures q'.cp.body.seqNo == q.cp.body.seqNo && q'.ack.body.acked == q.ack.body.acked
  {
    hide Stored, CursorOk, Regressed, Swept, Unacked;
    StoredPos(q.segs, log, f, q.ack.body.cursorSegment);
    var top, end :| Adopted(q, top, end, true, q');
    var acked, last := q'.ack.body.acked, log[|log| - 1];
    forall r | r in Unacked(log, acked)
      ensures r.seqNo <= last.seqNo
    {
      UnackedFromLog(log, acked, r);
    }
    if last.seqNo > acked {
      InUnacked(log, acked, |log| - 1);
    }
  }

  lemma {:induction false} UnackedFromLog(log: seq<Row>, acked: nat, r: Row)
    requires r in Unacked(log, acked)
    ensures r in log
  {
    if r != log[0] {
      UnackedFromLog(log[1..], acked, r);
    }
  }
}
