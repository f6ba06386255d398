/** Runs that exist: the firmware can be brought to skip a number and to lose a reading. */
module Witness {
  import opened Bytes
  import opened Records
  import opened PingPong
  import opened QueueSpec
  import opened QueueInvariant
  import opened Protocol
  import opened Delivery
  import opened Progress
  import opened Sketch
  import opened Numbering

  /** Some run of the firmware against the modelled server ends in this state. */
  ghost predicate Reached(f: Fw)
  {
    exists states: seq<Fw>, events: seq<FwEvent> :: EndsIn(states, events, f)
  }

  ghost predicate EndsIn(states: seq<Fw>, events: seq<FwEvent>, f: Fw)
  {
    FwHonestRun(states, events) && states[|events|] == f
  }

  lemma ReachedNext(f: Fw, e: FwEvent, f': Fw)
    requires Reached(f) && FwStep(f, e, f') && FwHonest(e, f')
    ensures Reached(f')
  {
    hide FwStep, FwHonest, Start;
    var states: seq<Fw>, events: seq<FwEvent> :| EndsIn(states, events, f);
    var longer, all := states + [f'], events + [e];
    forall i | 0 <= i < |all|
      ensures FwStep(longer[i], all[i], longer[i + 1]) && FwHonest(all[i], longer[i + 1])
    {
      if i < |events| {
        assert longer[i] == states[i] && all[i] == events[i] && longer[i + 1] == states[i + 1];
      }
    }
    assert EndsIn(longer, all, f');
  }

  lemma ReachedInv(f: Fw)
    requires Reached(f)
    ensures SafeInv(f.sys) && HonestInv(f.sys) && NumberInv(f)
  {
    hide SafeInv, HonestInv, NumberInv, FwRun, FwHonest;
    var states: seq<Fw>, events: seq<FwEvent> :| EndsIn(states, events, f);
    assert FwRun(states, events) && |states| == |events| + 1 by { LengthsOfRun(states, events); }
    FwRunSafe(states, events, |events|);
  }

  lemma LengthsOfRun(states: seq<Fw>, events: seq<FwEvent>)
    requires FwRun(states, events)
    ensures |states| == |events| + 1
  {
    hide FwStep, Start;
  }

  // --- single events that are always possible ----------------------------------------------------------

  /** Enough write counts left for another event. */
  predicate CountsLeft(q: Dev, n: nat)
  {
    DurableCp(q).writes + n < U32_MAX && DurableAck(q).writes < U32_MAX
  }

  lemma PowerUpWorks(f: Fw, boot: u32)
    requires SafeInv(f.sys) && CountsLeft(f.sys.q, 1) && |Strays(f.sys.q)| <= MAX_SWEEP
    ensures exists f' :: FwStep(f, PowerUp(boot), f') && f'.sys == f.sys.(q := Booted(f.sys.q, boot)) && !f'.ticked
  {
    hide SafeInv, Strays, DurableCp, DurableAck, Booted, Step;
    BootWorks(f.sys, boot);
    var s' := f.sys.(q := Booted(f.sys.q, boot));
    var f' := Fw(s', F.ResumeSeqFloor(s'.q.cp.body.seqNo, s'.q.ack.body.acked), false);
    assert FwStep(f, PowerUp(boot), f');
  }

  /** The device after a finished checkpoint of its number. */
  function Serviced(q: Dev, total: u64, seqNo: u32): Dev
  {
    var cp := Next(q.cp, Counted(q.cp.body, total, seqNo));
    q.(cp := cp, ck := Put(q.ck, cp))
  }

  lemma ServicedWorks(q: Dev, total: u64, seqNo: u32)
    ensures ServiceStep(q, total, seqNo, Serviced(q, total, seqNo))
  {
  }

  /** A tick that finishes. */
  function Ticked(f: Fw, m: Sys): Fw
  {
    Fw(m.(q := Serviced(m.q, 0, Inc32(f.seqNo))), Inc32(f.seqNo), true)
  }

  lemma TickedWorks(f: Fw, sample: Row, uptime: u32, confirmed: bool, m: Sys)
    requires f.sys.q.on && CountsLeft(f.sys.q, 1) && Telemetry(sample) && m.q.on
    requires AppendStep(f.sys, sample.(seqNo := Inc32(f.seqNo)), uptime, confirmed, true, m)
    ensures FwStep(f, Tick(sample, uptime), Ticked(f, m))
  {
    hide AppendStep, ServiceStep, DurableCp, DurableAck, Serviced;
    ServicedWorks(m.q, 0, Inc32(f.seqNo));
    var f' := Ticked(f, m);
    assert ServiceWith(m, Inc32(f.seqNo), f'.sys);
    assert TickStep(f, sample, uptime, m, f');
  }

  /** When nothing fails the row is confirmed and the number's checkpoint lands. */
  lemma TickWorks(f: Fw, sample: Row, uptime: u32)
    requires f.sys.q.on && CountsLeft(f.sys.q, 1) && Telemetry(sample)
    ensures exists f' :: (FwStep(f, Tick(sample, uptime), f') && f'.sys.q.on && f'.ticked && f'.seqNo == Inc32(f.seqNo)
      && f'.sys.log == f.sys.log + [sample.(seqNo := Inc32(f.seqNo))] && f'.sys.tables == f.sys.tables)
  {
    hide AppendStep, FwStep, Appended, DurableCp, DurableAck;
    var row := sample.(seqNo := Inc32(f.seqNo));
    AppendedConfirms(f.sys, row, uptime, true);
    var m := f.sys.(q := Appended(f.sys.q, row, true), log := f.sys.log + [row]);
    StaysPowered(f.sys.q, row, true);
    TickedWorks(f, sample, uptime, true, m);
  }

  lemma StaysPowered(q: Dev, row: Row, on: bool)
    ensures Appended(q, row, on).on == on
  {
    hide IdealKeep, EncodeRow;
  }

  /** From every running state a tick is possible whose append fails with power on and whose number's
      checkpoint lands; unless the number is a repeated one, this burns it. */
  lemma BurningTickExists(f: Fw, sample: Row, uptime: u32)
    requires SafeInv(f.sys) && NumberInv(f) && f.sys.q.on && CountsLeft(f.sys.q, 1) && Telemetry(sample)
    ensures exists f' :: (FwStep(f, Tick(sample, uptime), f') && f'.sys.q.on && f'.sys.log == f.sys.log
      && NumberLanded(f') && (Burns(f, Tick(sample, uptime), f') <==> !Repeats(f)))
  {
    hide SafeInv, NumberInv, AppendStep, FwStep, DurableCp, DurableAck, Repeats, NumberLanded;
    RefusedFails(f.sys, sample.(seqNo := Inc32(f.seqNo)), uptime);
    var m := f.sys.(q := Refused(f.sys.q, uptime));
    TickedWorks(f, sample, uptime, false, m);
    TickOutcome(f, Tick(sample, uptime), Ticked(f, m));
  }

  /** And one that is cut after the row's checkpoint, before the number's. */
  lemma CutTickExists(f: Fw, sample: Row, uptime: u32)
    requires SafeInv(f.sys) && NumberInv(f) && f.sys.q.on && CountsLeft(f.sys.q, 1) && Telemetry(sample)
    ensures var row := sample.(seqNo := Inc32(f.seqNo));
      exists f' :: (FwStep(f, Tick(sample, uptime), f') && f'.sys.log == f.sys.log + [row] && Repeats(f')
        && f'.sys == f.sys.(q := Appended(f.sys.q, row, false), log := f.sys.log + [row]))
  {
    hide SafeInv, NumberInv, AppendStep, FwStep, Appended, DurableCp, DurableAck, Repeats, NumberLanded;
    var row := sample.(seqNo := Inc32(f.seqNo));
    var m := f.sys.(q := Appended(f.sys.q, row, false), log := f.sys.log + [row]);
    AppendedConfirms(f.sys, row, uptime, false);
    StaysPowered(f.sys.q, row, false);
    var f' := Fw(m, row.seqNo, true);
    CutTickStep(f, sample, uptime, m, f');
    TickOutcome(f, Tick(sample, uptime), f');
    StepRepeats(f, Tick(sample, uptime), f');
    NotLanded(f, row, f');
  }

  lemma CutTickStep(f: Fw, sample: Row, uptime: u32, m: Sys, f': Fw)
    requires f.sys.q.on && CountsLeft(f.sys.q, 1) && Telemetry(sample) && !m.q.on
    requires AppendStep(f.sys, sample.(seqNo := Inc32(f.seqNo)), uptime, true, true, m)
    requires f' == Fw(m, Inc32(f.seqNo), true)
    ensures FwStep(f, Tick(sample, uptime), f')
  {
    hide AppendStep, DurableCp, DurableAck;
    assert TickStep(f, sample, uptime, m, f');
  }

  lemma NotLanded(f: Fw, row: Row, f': Fw)
    requires SafeInv(f.sys) && NumberInv(f) && f.sys.q.on && CountsLeft(f.sys.q, 1)
    requires row.seqNo == f.seqNo + 1 == f'.seqNo
    requires f'.sys == f.sys.(q := Appended(f.sys.q, row, false), log := f.sys.log + [row])
    ensures !NumberLanded(f')
  {
    hide Inv, Numbered, AppendSpec, Appended, DurableCp, DurableAck;
    AppendedConfirms(f.sys, row, 0, false);
    CpWritesCurrent(f.sys.q, f.sys.log);
    AppendDurable(f.sys.q, f.sys.log, row, 0, true, true, f'.sys.q);
  }

  // --- two runs --------------------------------------------------------------------------------------------

  /** A new meter and a new server. */
  function NewMeter(): Fw
  {
    var q := Dev(map[], Pair(None, None), Pair(None, None), Pair(None, None), false,
                 Rec(0, T.ZERO_CHECKPOINT), Rec(0, ZERO_ACK), Rec(0, ZERO_FAILURE), 0);
    Fw(Sys(q, [], S.Tables(map[], []), {}), 0, false)
  }

  /** The new meter after its first boot. */
  ghost predicate FirstBoot(f: Fw)
  {
    && Reached(f) && f.sys.q.on && f.seqNo == 0 && f.sys.log == [] && f.sys.q.segs == map[]
    && DurableCp(f.sys.q).writes == 0 && DurableAck(f.sys.q) == Rec(0, ZERO_ACK)
  }

  lemma FirstBootReached(boot: u32)
    ensures exists f :: FirstBoot(f)
  {
    hide FwStep, FwHonest, SafeInv, HonestInv, NumberInv;
    var f0 := NewMeter();
    assert EndsIn([f0], [], f0);
    ReachedInv(f0);
    assert Strays(f0.sys.q) == {};
    PowerUpWorks(f0, boot);
    var f :| FwStep(f0, PowerUp(boot), f) && f.sys == f0.sys.(q := Booted(f0.sys.q, boot)) && !f.ticked;
    ReachedNext(f0, PowerUp(boot), f) by { NoPush(PowerUp(boot), f); }
    ReachedInv(f);
    SameDurable(f0.sys.q, f.sys.q);
    NumberIs(f);
    assert FirstBoot(f);
  }

  lemma NoPush(e: FwEvent, f: Fw)
    requires !e.PushCycle?
    ensures FwHonest(e, f)
  {
  }

  lemma NumberIs(f: Fw)
    requires NumberInv(f) && f.sys.q.on
    ensures f.seqNo == Top(f.sys.q)
  {
    hide Numbered;
  }

  /** A row is appended under number 2 after the append of number 1 failed: the firmware can skip a number. */
  lemma NumberCanBeSkipped(sample: Row)
    requires Telemetry(sample)
    ensures exists f :: Reached(f) && Skips(f.sys.log, 0)
  {
    hide FwStep, FwHonest, SafeInv, HonestInv, NumberInv, Reached, DurableCp, DurableAck, Burns, NumberLanded;
    FirstBootReached(0);
    var f1 :| FirstBoot(f1);
    ReachedInv(f1);
    var e := Tick(sample, 0);
    BurningTickExists(f1, sample, 0);
    var f2 :| FwStep(f1, e, f2) && f2.sys.q.on && f2.sys.log == f1.sys.log && NumberLanded(f2);
    ReachedNext(f1, e, f2) by { NoPush(e, f2); }
    TickOutcome(f1, e, f2);
    TickWorks(f2, sample, 0);
    var f3 :| FwStep(f2, e, f3) && f3.sys.log == f2.sys.log + [sample.(seqNo := Inc32(f2.seqNo))];
    ReachedNext(f2, e, f3) by { NoPush(e, f3); }
    assert Skips(f3.sys.log, 0);
  }

  /** Two rows with different readings under number 1: power is cut after the first one's checkpoint. */
  ghost predicate TwoUnderOne(f: Fw, a: Row, b: Row)
  {
    && Reached(f) && f.sys.q.on && f.ticked && f.sys.log == [a.(seqNo := 1), b.(seqNo := 1)]
    && DurableCp(f.sys.q).writes < 10 && DurableAck(f.sys.q) == Rec(0, ZERO_ACK)
  }

  lemma TwoUnderOneReached(a: Row, b: Row)
    requires Telemetry(a) && Telemetry(b)
    ensures exists f :: TwoUnderOne(f, a, b)
  {
    hide FwStep, FwHonest, SafeInv, HonestInv, NumberInv, Reached, DurableCp, DurableAck;
    hide Appended, Booted, Top, NumberLanded;
    FirstBootReached(0);
    var f1 :| FirstBoot(f1);
    ReachedInv(f1);
    CutTickExists(f1, a, 0);
    var first := a.(seqNo := 1);
    var f2 :| FwStep(f1, Tick(a, 0), f2) && f2.sys.log == [] + [first] && Repeats(f2)
      && f2.sys == f1.sys.(q := Appended(f1.sys.q, first, false), log := [] + [first]);
    ReachedNext(f1, Tick(a, 0), f2) by { NoPush(Tick(a, 0), f2); }
    ReachedInv(f2);
    TickOutcome(f1, Tick(a, 0), f2);
    OneSegment(f1.sys.q, first);
    PowerUpWorks(f2, 1);
    var f3 :| FwStep(f2, PowerUp(1), f3) && f3.sys == f2.sys.(q := Booted(f2.sys.q, 1)) && !f3.ticked;
    ReachedNext(f2, PowerUp(1), f3) by { NoPush(PowerUp(1), f3); }
    ReachedInv(f3);
    BootedKeeps(f2.sys.q, 1);
    OtherOutcome(f2, PowerUp(1), f3);
    NumberIs(f3);
    LagsBehind(f2, f3);
    TickWorks(f3, b, 0);
    var second := b.(seqNo := Inc32(f3.seqNo));
    var f4 :| FwStep(f3, Tick(b, 0), f4) && f4.sys.q.on && f4.ticked && f4.sys.log == f3.sys.log + [second];
    ReachedNext(f3, Tick(b, 0), f4) by { NoPush(Tick(b, 0), f4); }
    TickOutcome(f3, Tick(b, 0), f4);
    assert TwoUnderOne(f4, a, b);
  }

  /** With number 1 due to repeat, the number in memory is 0. */
  lemma LagsBehind(f2: Fw, f3: Fw)
    requires Repeats(f2) && |f2.sys.log| == 1 && f2.sys.log[0].seqNo == 1
    requires Top(f3.sys.q) == Top(f2.sys.q) && f3.seqNo == Top(f3.sys.q)
    ensures f3.seqNo == 0
  {
    hide Top;
  }

  lemma OneSegment(q: Dev, row: Row)
    requires q.segs == map[]
    ensures |Strays(Appended(q, row, false))| <= 1
  {
    hide IdealKeep, EncodeRow, DurableCp, DurableAck, StraySegments;
    var q' := Appended(q, row, false);
    var seg := Target(q.cp.body).seg;
    assert Strays(q') <= {seg};
    SizeOfRest({seg}, Strays(q'));
  }

  lemma BootedKeeps(q: Dev, boot: u32)
    ensures Booted(q, boot).on
    ensures DurableCp(Booted(q, boot)) == DurableCp(q) && DurableAck(Booted(q, boot)) == DurableAck(q)
  {
    hide Backlog, Strays, Newest;
  }

  /** The firmware can lose a reading: after a push both rows are acknowledged, and the server holds the
      first one's reading only. */
  lemma ReadingCanBeLost(a: Row, b: Row)
    requires Telemetry(a) && Telemetry(b) && ReadingOf(a) != ReadingOf(b)
    ensures exists f :: Reached(f) && |f.sys.log| == 2 && ReadingLost(f.sys, 1)
  {
    hide FwStep, SafeInv, HonestInv, NumberInv, Reached, DurableCp, DurableAck, Step, Kept, FirstOf;
    TwoUnderOneReached(a, b);
    var f :| TwoUnderOne(f, a, b);
    ReachedInv(f);
    var s := f.sys;
    ExchangeWorks(s, 0, 0, 0, []);
    var e: Event, s' :| Completed(s, e, s') && HonestInv(s');
    ExchangeProgress(s, e, s');
    AllSent(s);
    var f' := f.(sys := s');
    assert FwStep(f, PushCycle(e.x, e.boot), f') by { PushedStep(f, e, s'); }
    ReachedNext(f, PushCycle(e.x, e.boot), f');
    PoweredAck(s');
    DeliveredOrKept(s', 1);
    assert First(s.log, FirstOf(s.log, 1));
  }

  lemma PushedStep(f: Fw, e: Event, s': Sys)
    requires Completed(f.sys, e, s') && f.ticked && CountsLeft(f.sys.q, 1)
    ensures FwStep(f, PushCycle(e.x, e.boot), f.(sys := s'))
  {
    hide Step, Honest, DurableCp, DurableAck;
    assert e == Push(e.x, e.boot);
  }

  lemma PoweredAck(s: Sys)
    requires HonestInv(s) && s.q.on
    ensures s.q.ack == DurableAck(s.q)
  {
    hide DiskInv, StoredFrom, S.Watermark;
  }

  /** With nothing acknowledged, the batch ends with the last row of a short log. */
  lemma AllSent(s: Sys)
    requires HonestInv(s) && s.q.on && DurableAck(s.q) == Rec(0, ZERO_ACK)
    requires |s.log| == 2 && s.log[0].seqNo == 1 && s.log[1].seqNo == 1
    ensures Batch(s.q) != [] && Batch(s.q)[|Batch(s.q)| - 1].seqNo == 1
  {
    hide Inv, Batch, StoredFrom, S.Watermark, CursorIndex, DurableAck;
    BatchIsStretch(s.q, s.log);
    PoweredAck(s);
    var c := CursorIndex(s.q.Cursor());
    assert s.log[0].seqNo > s.q.ack.body.acked;
    assert c == 0;
    assert Batch(s.q)[|Batch(s.q)| - 1] == s.log[c + |Batch(s.q)| - 1];
  }
}
