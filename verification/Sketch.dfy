/** Runs of the firmware as it is: the sketch numbers its own rows, and power may go anywhere in a tick. */
module Sketch {
  import opened Bytes
  import opened Records
  import opened PingPong
  import opened QueueSpec
  import opened QueueLog
  import opened QueueInvariant
  import opened AckParsing
  import opened Protocol
  import opened Delivery
  import F = Firmware
  import T = Totalizer

  /** The system, the number in memory, and whether a telemetry tick has happened since boot. */
  datatype Fw = Fw(sys: Sys, seqNo: u32, ticked: bool)

  datatype FwEvent =
    | Tick(sample: Row, uptime: u32)          // a telemetry row, then its checkpoint
    | Background(total: u64)                  // the drain while provisioning or downloading
    | PushCycle(x: Exchange, boot: u32)
    | Cut
    | PowerUp(newBoot: u32)

  /** A tick: the row is appended under the next number and, while power lasts, the number checkpointed. */
  ghost predicate TickStep(f: Fw, sample: Row, uptime: u32, m: Sys, f': Fw)
  {
    var row := sample.(seqNo := Inc32(f.seqNo));
    && (exists confirmed, steady :: AppendStep(f.sys, row, uptime, confirmed, steady, m))
    && (if m.q.on then ServiceWith(m, row.seqNo, f'.sys) else f'.sys == m)
    && f'.seqNo == row.seqNo && f'.ticked
  }

  ghost predicate ServiceWith(s: Sys, seqNo: u32, s': Sys)
  {
    s' == s.(q := s'.q) && exists total :: ServiceStep(s.q, total, seqNo, s'.q)
  }

  /** One event. The only hypothesis is that the slots' write counters have not run out. */
  ghost predicate FwStep(f: Fw, e: FwEvent, f': Fw)
  {
    && CountersLeft(f.sys.q)
    && match e
       case Tick(sample, uptime) =>
         f.sys.q.on && Telemetry(sample) && exists m :: TickStep(f, sample, uptime, m, f')
       case Background(total) =>
         Step(f.sys, Service(total, f.sys.q.cp.body.seqNo), f'.sys) && f' == f.(sys := f'.sys)
       case PushCycle(x, boot) => f.ticked && Step(f.sys, Push(x, boot), f'.sys) && f' == f.(sys := f'.sys)
       case Cut => Step(f.sys, PowerCut, f'.sys) && f' == f.(sys := f'.sys)
       case PowerUp(boot) =>
         && Step(f.sys, Boot(boot), f'.sys) && !f'.ticked
         && (f'.sys.q.on ==> f'.seqNo == F.ResumeSeqFloor(f'.sys.q.cp.body.seqNo, f'.sys.q.ack.body.acked))
  }

  ghost predicate FwHonest(e: FwEvent, f': Fw)
  {
    e.PushCycle? ==> Honest(Push(e.x, e.boot), f'.sys)
  }

  /** The number a boot would resume from. */
  function Top(q: Dev): u32
  {
    F.ResumeSeqFloor(DurableCp(q).body.seqNo, DurableAck(q).body.acked)
  }

  /** Every number confirmed so far is at most `n`. */
  ghost predicate Numbered(log: seq<Row>, n: int)
  {
    forall i :: 0 <= i < |log| ==> log[i].seqNo <= n
  }

  /** The numbering never runs ahead of what a boot can recover by more than one, and each number used up
      one checkpoint write. In memory it is what a boot would resume from. */
  ghost predicate NumberInv(f: Fw)
  {
    var q := f.sys.q;
    && Numbered(f.sys.log, Top(q) + 1) && Numbered(f.sys.log, DurableCp(q).writes) && Top(q) <= DurableCp(q).writes
    && (q.on ==> f.seqNo == Top(q)) && (q.on && f.ticked ==> Numbered(f.sys.log, f.seqNo))
  }

  // --- the sketch's methods make these events --------------------------------------------------------

  ghost predicate CountersLeft(q: Dev)
  {
    DurableCp(q).writes < U32_MAX - 1 && DurableAck(q).writes < U32_MAX
  }

  /** What Meter.Tick promises is a Tick event, and the log grows exactly when the row is confirmed. */
  lemma TickIsEvent(f: Fw, sample: Row, uptime: u32, confirmed: bool, steady: bool, m: Dev, total: u64, q': Dev)
    requires f.sys.q.on && CountersLeft(f.sys.q) && Telemetry(sample)
    requires F.TickVia(f.sys.q, sample.(seqNo := Inc32(f.seqNo)), uptime, confirmed, steady, m, total, q')
    ensures exists f' ::
      && FwStep(f, Tick(sample, uptime), f') && f'.sys.q == q' && f'.seqNo == Inc32(f.seqNo)
      && f'.sys.log == if confirmed then f.sys.log + [sample.(seqNo := f'.seqNo)] else f.sys.log
  {
    hide AppendSpec, ServiceStep, DurableCp, DurableAck;
    var row := sample.(seqNo := Inc32(f.seqNo));
    var mid := f.sys.(q := m, log := if confirmed then f.sys.log + [row] else f.sys.log);
    var f' := Fw(mid.(q := q'), row.seqNo, true);
    assert AppendStep(f.sys, row, uptime, confirmed, steady, mid);
    assert TickStep(f, sample, uptime, mid, f');
  }

  /** What Meter.Setup promises is a PowerUp event. */
  lemma SetupIsEvent(f: Fw, boot: u32, steady: bool, listed: bool, q1: Dev, m: Dev, q': Dev, seqNo: u32)
    requires CountersLeft(f.sys.q) && F.BootVia(f.sys.q, boot, steady, listed, q1, m, q')
    requires q'.on ==> seqNo == F.ResumeSeqFloor(q'.cp.body.seqNo, q'.ack.body.acked)
    ensures FwStep(f, PowerUp(boot), Fw(f.sys.(q := q'), seqNo, false))
  {
    hide PowerOn, BeginVia, DurableCp, DurableAck;
    assert BootStep(f.sys, boot, steady, q1, f.sys.(q := q'));
  }

  /** What Meter.PushOnce promises of a batch it sends is a PushCycle event, received or not. */
  lemma PushIsEvent(f: Fw, x: Exchange, boot: u32, q': Dev)
    requires f.sys.q.on && f.ticked && CountersLeft(f.sys.q) && Batch(f.sys.q) != []
    requires var batch := Batch(f.sys.q); ResponseEffect(f.sys.q, batch[|batch| - 1].seqNo, x.response, boot, q')
    ensures exists f' :: FwStep(f, PushCycle(x, boot), f') && f'.sys.q == q' && f'.seqNo == f.seqNo
  {
    hide Batch, ResponseEffect, DurableCp, DurableAck, Received;
    var batch := Batch(f.sys.q);
    var s' := f.sys.(q := q', sent := f.sys.sent + SeqsOf(batch), tables := Received(f.sys.tables, batch, x));
    assert Step(f.sys, Push(x, boot), s');
    assert FwStep(f, PushCycle(x, boot), f.(sys := s'));
  }

  // --- a tick ------------------------------------------------------------------------------------

  /** The next row will carry a number that is already taken. */
  ghost predicate Repeats(f: Fw)
  {
    !Numbered(f.sys.log, Top(f.sys.q))
  }

  /** The sketch's next number is always one the queue may take, and it is already taken exactly when the
      numbering lags behind the log. RepeatsExactly says when that is. */
  lemma NextNumberAdmissible(f: Fw, row: Row)
    requires SafeInv(f.sys) && f.sys.q.on && NumberInv(f) && DurableCp(f.sys.q).writes < U32_MAX
    requires row.seqNo == Inc32(f.seqNo)
    ensures Admissible(row, f.sys.log, f.sys.q.ack.body.acked) && row.seqNo == f.seqNo + 1
    ensures (exists i :: 0 <= i < |f.sys.log| && f.sys.log[i].seqNo == row.seqNo) <==> Repeats(f)
  {
    hide Inv;
    CpWritesCurrent(f.sys.q, f.sys.log);
  }

  /** An append leaves the checkpointed number alone and writes the checkpoint exactly when it confirms. */
  lemma AppendDurable(q: Dev, log: seq<Row>, row: Row, uptime: u32, confirmed: bool, steady: bool, q': Dev)
    requires Inv(q, log) && q.on && q.cp.writes < U32_MAX && AppendSpec(q, row, uptime, confirmed, steady, q')
    ensures DurableCp(q').body.seqNo == DurableCp(q).body.seqNo && q'.ak == q.ak && q'.ack == q.ack
    ensures DurableCp(q').writes == DurableCp(q).writes + (if confirmed then 1 else 0)
  {
    hide Stored, CursorOk, Ascending, Sound, KeepOk, EncodeRow, CursorIndex, Newest;
    var keep :| AppendWith(q, row, uptime, confirmed, keep, steady, q');
    SoundRecovers(q.ck, DurableCp(q), T.ZERO_CHECKPOINT);
    if confirmed {
      PersistNext(q.ck, DurableCp(q), q'.cp, q'.ck, q'.on);
    } else if q'.ck != q.ck {
      PersistSound(q.ck, DurableCp(q), Next(q.cp, q.cp.body), q'.ck, false, T.ZERO_CHECKPOINT);
    }
  }

  /** A service call leaves the old checkpoint or the new one. */
  lemma ServiceDurable(q: Dev, log: seq<Row>, total: u64, seqNo: u32, q': Dev)
    requires Inv(q, log) && q.on && q.cp.writes < U32_MAX && ServiceStep(q, total, seqNo, q')
    ensures DurableCp(q') == DurableCp(q) ||
      (DurableCp(q').body.seqNo == seqNo && DurableCp(q').writes == DurableCp(q).writes + 1)
    ensures q'.on ==> DurableCp(q').body.seqNo == seqNo && DurableCp(q').writes == DurableCp(q).writes + 1
    ensures DurableAck(q') == DurableAck(q)
  {
    hide Stored, CursorOk, Ascending, Sound, CursorIndex, Newest;
    SoundRecovers(q.ck, DurableCp(q), T.ZERO_CHECKPOINT);
    PersistSound(q.ck, DurableCp(q), q'.cp, q'.ck, q'.on, T.ZERO_CHECKPOINT);
  }

  /** The append half of a tick, as an event of the protocol. */
  lemma TickAppends(f: Fw, sample: Row, uptime: u32, m: Sys, f': Fw)
    requires SafeInv(f.sys) && f.sys.q.on && NumberInv(f) && DurableCp(f.sys.q).writes < U32_MAX - 1
    requires DurableAck(f.sys.q).writes < U32_MAX && Telemetry(sample) && TickStep(f, sample, uptime, m, f')
    ensures f'.seqNo == f.seqNo + 1 && Step(f.sys, Append(sample.(seqNo := f'.seqNo), uptime), m)
    ensures Numbered(m.log, f'.seqNo) && Numbered(m.log, DurableCp(m.q).writes)
    ensures DurableCp(m.q).body.seqNo == DurableCp(f.sys.q).body.seqNo && DurableAck(m.q) == DurableAck(f.sys.q)
    ensures DurableCp(f.sys.q).writes <= DurableCp(m.q).writes <= DurableCp(f.sys.q).writes + 1
    ensures m.tables == f.sys.tables
  {
    hide Inv, AppendSpec, Admissible, DurableCp, DurableAck;
    var row := sample.(seqNo := Inc32(f.seqNo));
    NextNumberAdmissible(f, row);
    var confirmed, steady :| AppendStep(f.sys, row, uptime, confirmed, steady, m);
    CpWritesCurrent(f.sys.q, f.sys.log);
    AppendDurable(f.sys.q, f.sys.log, row, uptime, confirmed, steady, m.q);
    SameAck(f.sys.q, m.q);
  }

  lemma SameAck(q: Dev, q': Dev)
    requires q'.ak == q.ak
    ensures DurableAck(q') == DurableAck(q)
  {
  }

  lemma TickKeeps(f: Fw, sample: Row, uptime: u32, f': Fw)
    requires SafeInv(f.sys) && NumberInv(f) && FwStep(f, Tick(sample, uptime), f')
    ensures SafeInv(f'.sys) && NumberInv(f') && f.sys.log <= f'.sys.log
    ensures HonestInv(f.sys) ==> HonestInv(f'.sys)
  {
    hide SafeInv, HonestInv, Inv, AppendStep, ServiceStep, DurableCp, DurableAck;
    var m :| TickStep(f, sample, uptime, m, f');
    TickAppends(f, sample, uptime, m, f');
    var append := Append(sample.(seqNo := f'.seqNo), uptime);
    StepKeeps(f.sys, append, m);
    if m.q.on {
      var total :| ServiceStep(m.q, total, f'.seqNo, f'.sys.q);
      InvOf(m);
      CpWritesCurrent(m.q, m.log);
      ServiceDurable(m.q, m.log, total, f'.seqNo, f'.sys.q);
      assert Step(m, Service(total, f'.seqNo), f'.sys);
      StepKeeps(m, Service(total, f'.seqNo), f'.sys);
    }
  }

  /** A step of the protocol, as far as this module needs it. */
  lemma StepKeeps(s: Sys, e: Event, s': Sys)
    requires SafeInv(s) && Step(s, e, s')
    ensures SafeInv(s') && s.log <= s'.log && DurableAck(s.q).body.acked <= DurableAck(s'.q).body.acked
    ensures HonestInv(s) && Honest(e, s') ==> HonestInv(s')
    ensures !e.Push? ==> Honest(e, s')
  {
    hide SafeInv, HonestInv, Step, DeletionSafe, DurableAck;
    StepSafe(s, e, s');
    if HonestInv(s) && Honest(e, s') {
      StepHonest(s, e, s');
    }
  }

  lemma InvOf(s: Sys)
    requires SafeInv(s)
    ensures Inv(s.q, s.log)
  {
    hide Inv;
  }

  // --- the other events ----------------------------------------------------------------------------

  lemma BackgroundKeeps(f: Fw, total: u64, f': Fw)
    requires SafeInv(f.sys) && NumberInv(f) && FwStep(f, Background(total), f')
    ensures SafeInv(f'.sys) && NumberInv(f') && f.sys.log <= f'.sys.log
    ensures HonestInv(f.sys) ==> HonestInv(f'.sys)
  {
    hide SafeInv, HonestInv, Inv, ServiceStep, DurableCp, DurableAck;
    var e := Service(total, f.sys.q.cp.body.seqNo);
    InvOf(f.sys);
    CpWritesCurrent(f.sys.q, f.sys.log);
    CpNumberCurrent(f.sys.q, f.sys.log);
    ServiceDurable(f.sys.q, f.sys.log, total, f.sys.q.cp.body.seqNo, f'.sys.q);
    StepKeeps(f.sys, e, f'.sys);
  }

  lemma CpNumberCurrent(q: Dev, log: seq<Row>)
    requires Inv(q, log) && q.on
    ensures q.cp.body.seqNo == DurableCp(q).body.seqNo
  {
    hide DiskInv;
  }

  /** A push acknowledges nothing beyond the last confirmed number, so after a tick it never overtakes the
      number in memory. */
  lemma PushKeeps(f: Fw, x: Exchange, boot: u32, f': Fw)
    requires SafeInv(f.sys) && NumberInv(f) && FwStep(f, PushCycle(x, boot), f')
    ensures SafeInv(f'.sys) && NumberInv(f') && f.sys.log <= f'.sys.log
    ensures HonestInv(f.sys) && FwHonest(PushCycle(x, boot), f') ==> HonestInv(f'.sys)
  {
    hide SafeInv, HonestInv, Inv, PushStep, DurableCp, DurableAck, Honest;
    StepKeeps(f.sys, Push(x, boot), f'.sys);
    PushWithin(f.sys, x, boot, f'.sys, f.seqNo);
  }

  lemma PushWithin(s: Sys, x: Exchange, boot: u32, s': Sys, n: nat)
    requires SafeInv(s) && Step(s, Push(x, boot), s') && Numbered(s.log, n) && DurableAck(s.q).body.acked <= n
    ensures s'.log == s.log && DurableCp(s'.q) == DurableCp(s.q)
    ensures DurableAck(s.q).body.acked <= DurableAck(s'.q).body.acked <= n
    ensures s'.q.on ==> s.q.on
  {
    hide Inv, Batch, AckSpec, DeletionSafe;
    CpWritesCurrent(s.q, s.log);
    var batch := Batch(s.q);
    var a := if x.response.Some? then AckIn(x.response.value) else None;
    if batch != [] && a.Some? {
      var last := batch[|batch| - 1].seqNo;
      BatchIsStretch(s.q, s.log);
      assert batch[|batch| - 1] == s.log[CursorIndex(s.q.Cursor()) + |batch| - 1];
      AckKeepsInv(s.q, s.log, BoundAckSeq(a.value, last).ack, boot, s'.q);
      AckKeepsCheckpoint(s.q, BoundAckSeq(a.value, last).ack, boot, s'.q);
    }
  }

  lemma AckKeepsCheckpoint(q: Dev, ackedSeq: u32, boot: u32, q': Dev)
    requires AckSpec(q, ackedSeq, boot, q')
    ensures DurableCp(q') == DurableCp(q)
  {
    hide WalkLog, SegmentRange, Persisted;
  }

  lemma CutKeeps(f: Fw, f': Fw)
    requires SafeInv(f.sys) && NumberInv(f) && FwStep(f, Cut, f')
    ensures SafeInv(f'.sys) && NumberInv(f') && f.sys.log <= f'.sys.log
    ensures HonestInv(f.sys) ==> HonestInv(f'.sys)
  {
    hide SafeInv, HonestInv;
    StepKeeps(f.sys, PowerCut, f'.sys);
  }

  /** A boot resumes from exactly what the invariant asks for. */
  lemma PowerUpKeeps(f: Fw, boot: u32, f': Fw)
    requires SafeInv(f.sys) && NumberInv(f) && FwStep(f, PowerUp(boot), f')
    ensures SafeInv(f'.sys) && NumberInv(f') && f.sys.log <= f'.sys.log
    ensures HonestInv(f.sys) ==> HonestInv(f'.sys)
  {
    hide SafeInv, HonestInv, Inv, BootStep, DurableCp, DurableAck;
    StepKeeps(f.sys, Boot(boot), f'.sys);
    InvOf(f'.sys);
    BootDurable(f.sys, boot, f'.sys);
    if f'.sys.q.on {
      CpNumberCurrent(f'.sys.q, f'.sys.log);
      CpWritesCurrent(f'.sys.q, f'.sys.log);
    }
  }

  lemma BootDurable(s: Sys, boot: u32, s': Sys)
    requires SafeInv(s) && Step(s, Boot(boot), s')
    ensures s'.log == s.log && DurableAck(s'.q) == DurableAck(s.q)
    ensures DurableCp(s'.q).body.seqNo == DurableCp(s.q).body.seqNo && DurableCp(s.q).writes <= DurableCp(s'.q).writes
  {
    hide DiskInv, BeginSpec, PowerOn, DeletionSafe, DurableCp, DurableAck;
    var steady, q1 :| BootStep(s, boot, steady, q1, s');
    PowerOnKeepsDisk(s.q, s.log, boot, q1);
    if q1.on {
      BeginKeepsInv(q1, s.log, steady, s'.q);
    }
  }

  // --- whole runs ------------------------------------------------------------------------------------

  /** Every event keeps the device's side and the numbering, whatever the server answers, and the server's
      side too when it is the one modelled. */
  lemma FwStepKeeps(f: Fw, e: FwEvent, f': Fw)
    requires SafeInv(f.sys) && NumberInv(f) && FwStep(f, e, f')
    ensures SafeInv(f'.sys) && NumberInv(f') && f.sys.log <= f'.sys.log
    ensures HonestInv(f.sys) && FwHonest(e, f') ==> HonestInv(f'.sys)
  {
    hide SafeInv, HonestInv, NumberInv, FwStep, FwHonest;
    match e
    case Tick(sample, uptime) => TickKeeps(f, sample, uptime, f');
    case Background(total) => BackgroundKeeps(f, total, f');
    case PushCycle(x, boot) => PushKeeps(f, x, boot, f');
    case Cut => CutKeeps(f, f');
    case PowerUp(boot) => PowerUpKeeps(f, boot, f');
  }

  /** A run of the firmware from an erased device, against a server that may answer anything. */
  ghost predicate FwRun(states: seq<Fw>, events: seq<FwEvent>)
  {
    && |states| == |events| + 1 && Start(states[0].sys)
    && forall i :: 0 <= i < |events| ==> FwStep(states[i], events[i], states[i + 1])
  }

  /** The same against the modelled server. */
  ghost predicate FwHonestRun(states: seq<Fw>, events: seq<FwEvent>)
  {
    FwRun(states, events) && forall i :: 0 <= i < |events| ==> FwHonest(events[i], states[i + 1])
  }

  lemma {:induction false} FwRunSafe(states: seq<Fw>, events: seq<FwEvent>, n: nat)
    requires FwRun(states, events) && n < |states|
    ensures SafeInv(states[n].sys) && NumberInv(states[n])
    ensures FwHonestRun(states, events) ==> HonestInv(states[n].sys)
  {
    hide FwStep, FwHonest, SafeInv, HonestInv, NumberInv;
    if n == 0 {
      StartNumbered(states[0]);
    } else {
      FwRunSafe(states, events, n - 1);
      FwStepKeeps(states[n - 1], events[n - 1], states[n]);
    }
  }

  lemma StartNumbered(f: Fw)
    requires Start(f.sys)
    ensures SafeInv(f.sys) && HonestInv(f.sys) && NumberInv(f)
  {
    hide SafeInv;
    StartHolds(f.sys);
  }

  /** The firmware as it is, with no assumption on how rows are numbered, and power lost anywhere: every row
      ever confirmed is stored under its number, with the reading of the first row that carries it, or is
      still on flash and returned when the queue is drained. Its own reading is lost exactly when it has
      gone from the queue and an earlier row carried its number with another reading; RepeatsExactly says
      when a number is carried twice. */
  lemma FirmwareDeliversExactlyOnce(states: seq<Fw>, events: seq<FwEvent>, n: nat, i: nat)
    requires FwHonestRun(states, events) && n < |states| && i < |states[n].sys.log|
    ensures Delivered(states[n].sys, i) || Kept(states[n].sys, i)
    ensures var s := states[n].sys;
      ReadingLost(s, i) <==> !Kept(s, i) && ReadingOf(s.log[FirstOf(s.log, i)]) != ReadingOf(s.log[i])
  {
    hide FwRun, HonestInv, NumberInv, Kept, FirstOf;
    assert FwRun(states, events);
    FwRunSafe(states, events, n);
    DeliveredOrKept(states[n].sys, i);
  }

  /** And whatever bytes any server answers: a row whose number was never transmitted is never
      acknowledged and is still on flash. */
  lemma FirmwareKeepsUntransmitted(states: seq<Fw>, events: seq<FwEvent>, n: nat, i: nat)
    requires FwRun(states, events) && n < |states| && i < |states[n].sys.log|
    requires states[n].sys.log[i].seqNo !in states[n].sys.sent
    ensures states[n].sys.log[i].seqNo > DurableAck(states[n].sys.q).body.acked && Kept(states[n].sys, i)
  {
    hide FwRun, SafeInv, NumberInv, Kept;
    FwRunSafe(states, events, n);
    UnsentKept(states[n].sys, i);
  }
}
