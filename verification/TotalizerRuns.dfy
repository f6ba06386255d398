/** The lifetime total over whole runs: every checkpoint write may be cut, every boot recovers from the slots. */
module TotalizerRuns {
  import opened Bytes
  import opened Records
  import opened PingPong
  import opened Storage
  import opened Totalizer

  // --- counting across boots -----------------------------------------------------------------------

  /** The meter with two numbers it does not know: every pulse that `arrived` while it was powered, and the
      total at the last service call that `finished`. `since` counts the hardware pulses since the last
      service call or boot. */
  datatype Meter = Meter(slots: Pair<Checkpoint>, cp: Rec<Checkpoint>, count: Counter, on: bool,
                         since: nat, arrived: nat, finished: nat)

  datatype MeterEvent =
    | Pulse(n: nat)
    | SoftPulse(n: nat)
    | Serve(seqNo: u32)
    | QueueOffset(segment: u32, offset: u32)
    | PowerLost
    | PoweredUp(boot: u32)

  function Durable(m: Meter): Rec<Checkpoint>
  {
    Newest(m.slots, ZERO_CHECKPOINT)
  }

  /** A checkpoint write of `body`, which power may cut. */
  predicate Writes(m: Meter, body: Checkpoint, m': Meter)
  {
    m'.cp == Next(m.cp, body) && Persisted(m.slots, m'.cp, m'.slots, m'.on)
  }

  /** One event. Service calls come in time, write counters have not run out and totals fit 64 bits. */
  predicate MeterStep(m: Meter, e: MeterEvent, m': Meter)
  {
    && Durable(m).writes < U32_MAX && m'.arrived < 0x1_0000_0000_0000_0000
    && match e
       case Pulse(n) =>
         && m.on && m.since + n <= 2767
         && m' == m.(count := m.count.Pulsed(n), since := m.since + n, arrived := m.arrived + n)
       case SoftPulse(n) => m.on && m' == m.(count := m.count.Injected(n), arrived := m.arrived + n)
       case Serve(seqNo) =>
         var c := m.count.Serviced(0);
         && m.on && Writes(m, Counted(m.cp.body, Wrap64(c.saved), seqNo), m')
         && m' == Meter(m'.slots, m'.cp, c, m'.on, 0, m.arrived, if m'.on then c.Total() else m.finished)
       case QueueOffset(segment, offset) =>
         && m.on && Writes(m, ConfirmedUpTo(m.cp.body, segment, offset), m')
         && m' == m.(slots := m'.slots, cp := m'.cp, on := m'.on)
       case PowerLost => m' == m.(on := false)
       case PoweredUp(boot) =>
         && m'.cp.body == Durable(m).body.(boot := boot)
         && (if m'.cp.writes == Durable(m).writes then m'.slots == m.slots && m'.on
             else m'.cp.writes == Inc32(Durable(m).writes) && Persisted(m.slots, m'.cp, m'.slots, m'.on))
         && m' == Meter(m'.slots, m'.cp, PowerUp(Durable(m).body.total), m'.on, 0, m.arrived, m.finished)
  }

  /** The recovered total is between the last finished service call's and the true count, and while the meter
      runs so is the one it shows; the hardware counter is below its limit. */
  predicate MeterInv(m: Meter)
  {
    && Sound(m.slots, Durable(m), ZERO_CHECKPOINT)
    && m.finished <= Durable(m).body.total <= m.arrived < 0x1_0000_0000_0000_0000
    && (m.on ==>
          && m.cp.writes == Durable(m).writes && m.cp.body.total == Durable(m).body.total
          && m.since <= 2767 && m.count.hw < DRAIN_AT + m.since
          && m.finished <= m.cp.body.total <= m.count.Total() <= m.arrived)
  }

  /** A write of this total, finished or cut, leaves a durable total that is the old or the new one. */
  lemma WriteDurable(m: Meter, body: Checkpoint, m': Meter)
    requires Sound(m.slots, Durable(m), ZERO_CHECKPOINT) && m.cp.writes == Durable(m).writes < U32_MAX
    requires Writes(m, body, m')
    ensures Sound(m'.slots, Durable(m'), ZERO_CHECKPOINT)
    ensures Durable(m') == m'.cp || (!m'.on && Durable(m') == Durable(m))
  {
    hide Sound, Newest;
    PersistSound(m.slots, Durable(m), m'.cp, m'.slots, m'.on, ZERO_CHECKPOINT);
  }

  lemma PulseCounted(c: Counter, n: nat, since: nat)
    requires c.hw < DRAIN_AT + since && since + n <= 2767
    ensures c.Pulsed(n).Total() == c.Total() + n && c.Pulsed(n).hw < DRAIN_AT + since + n
  {
  }

  lemma ServeCounted(c: Counter, since: nat)
    requires c.hw < DRAIN_AT + since && since <= 2767
    ensures c.Serviced(0).Total() == c.Total() == c.Serviced(0).saved && c.Serviced(0).hw < DRAIN_AT
    ensures c.Total() < 0x1_0000_0000_0000_0000 ==> Wrap64(c.Serviced(0).saved) == c.Total()
  {
  }

  lemma MeterStepKeeps(m: Meter, e: MeterEvent, m': Meter)
    requires MeterInv(m) && MeterStep(m, e, m')
    ensures MeterInv(m')
  {
    hide Sound, Persisted, Newest, Wrap64, Counter.Pulsed, Counter.Serviced;
    match e
    case Pulse(n) => PulseCounted(m.count, n, m.since);
    case SoftPulse(n) =>
    case Serve(seqNo) =>
      ServeCounted(m.count, m.since);
      WriteDurable(m, Counted(m.cp.body, Wrap64(m.count.Serviced(0).saved), seqNo), m');
    case QueueOffset(segment, offset) => WriteDurable(m, ConfirmedUpTo(m.cp.body, segment, offset), m');
    case PowerLost =>
    case PoweredUp(boot) =>
      if m'.cp.writes != Durable(m).writes {
        PersistSound(m.slots, Durable(m), m'.cp, m'.slots, m'.on, ZERO_CHECKPOINT);
      }
  }

  /** A run from slots that recover `total`, switched off. */
  predicate MeterRun(states: seq<Meter>, events: seq<MeterEvent>, total: u64)
  {
    && |states| == |events| + 1 && !states[0].on && Sound(states[0].slots, Durable(states[0]), ZERO_CHECKPOINT)
    && Durable(states[0]).body.total == total && states[0].arrived == total && states[0].finished == total
    && forall i :: 0 <= i < |events| ==> MeterStep(states[i], events[i], states[i + 1])
  }

  lemma {:induction false} MeterRunKeeps(states: seq<Meter>, events: seq<MeterEvent>, total: u64, n: nat)
    requires MeterRun(states, events, total) && n < |states|
    ensures MeterInv(states[n])
  {
    hide MeterStep, Sound, Newest;
    if n > 0 {
      MeterRunKeeps(states, events, total, n - 1);
      MeterStepKeeps(states[n - 1], events[n - 1], states[n]);
    }
  }

  /** Over every run, with power lost anywhere in any checkpoint write and any number of boots: what each boot
      recovers lies between the total of the last finished service call and the true count. */
  lemma RecoveredBetween(states: seq<Meter>, events: seq<MeterEvent>, total: u64, n: nat)
    requires MeterRun(states, events, total) && n < |events| && events[n].PoweredUp?
    ensures var m, m' := states[n], states[n + 1];
      m.finished <= m'.count.Total() <= m.arrived && m'.count.Total() == Durable(m).body.total
  {
    hide Sound, Newest;
    MeterRunKeeps(states, events, total, n);
    assert MeterStep(states[n], events[n], states[n + 1]);
  }

  lemma StepCounts(m: Meter, e: MeterEvent, m': Meter)
    requires MeterInv(m) && MeterStep(m, e, m') && m'.on && !e.PoweredUp?
    ensures m.on && m'.arrived - m.arrived == m'.count.Total() - m.count.Total()
  {
    hide Sound, Persisted, Newest, Wrap64, Counter.Pulsed, Counter.Serviced;
    if e.Pulse? {
      PulseCounted(m.count, e.n, m.since);
    } else if e.Serve? {
      ServeCounted(m.count, m.since);
    }
  }

  /** Between boots the total shown grows by every pulse: nothing is lost while power lasts. */
  lemma {:induction false} NothingLostWhilePowered(states: seq<Meter>, events: seq<MeterEvent>, total: u64,
                                                   m: nat, n: nat)
    requires MeterRun(states, events, total) && m <= n < |states| && states[n].on
    requires forall i :: m <= i < n ==> !events[i].PoweredUp?
    ensures states[n].arrived - states[m].arrived == states[n].count.Total() - states[m].count.Total()
    decreases n - m
  {
    hide MeterStep, MeterInv, Sound, Newest, Durable;
    if m < n {
      MeterRunKeeps(states, events, total, n - 1);
      StepCounts(states[n - 1], events[n - 1], states[n]);
      NothingLostWhilePowered(states, events, total, m, n - 1);
    }
  }

  // --- retiring the legacy format ----------------------------------------------------------------------

  /** One boot on sound slots, wherever power is cut in its rewrite: what is recovered next is the same record,
      or the same values rewritten in the current format. */
  lemma BootKeepsRecord(d: Disk, bootId: u32, cp: Rec<Checkpoint>, d': Disk, on: bool)
    requires var cur := Newest(CkPair(d), ZERO_CHECKPOINT);
      Sound(CkPair(d), cur, ZERO_CHECKPOINT) && cur.writes < U32_MAX && Begun(d, bootId, cp, d', on)
    ensures var cur, next := Newest(CkPair(d), ZERO_CHECKPOINT), Newest(CkPair(d'), ZERO_CHECKPOINT);
      && Sound(CkPair(d'), next, ZERO_CHECKPOINT)
      && (if RecoversLegacy(d') then next == cur else RecoversLegacy(d) ==> next == cp)
      && (on ==> !RecoversLegacy(d')) && (!RecoversLegacy(d) ==> d' == d)
  {
    hide LoadCheckpoint, LoadLegacy, EncodeCheckpoint, Sound;
    var cur := Newest(CkPair(d), ZERO_CHECKPOINT);
    if RecoversLegacy(d) {
      LoadEncodeCheckpoint(cp);
      SlotIsPersisted(d, cp, d', on);
      PersistSound(CkPair(d), cur, cp, CkPair(d'), on, ZERO_CHECKPOINT);
      LegacyAfter(d, cur, cp, d', on);
    }
  }

  lemma SlotIsPersisted(d: Disk, r: Rec<Checkpoint>, d': Disk, on: bool)
    requires SlotWritten(d, r, d', on)
    ensures Persisted(CkPair(d), r, CkPair(d'), on)
  {
    hide LoadEither, EncodeCheckpoint;
    LoadEitherEncoded(r);
  }

  /** After a rewrite the legacy format is recovered exactly when the rewrite did not land. */
  lemma LegacyAfter(d: Disk, cur: Rec<Checkpoint>, r: Rec<Checkpoint>, d': Disk, on: bool)
    requires Sound(CkPair(d), cur, ZERO_CHECKPOINT) && cur.writes < U32_MAX && r.writes == Inc32(cur.writes)
    requires RecoversLegacy(d) && SlotWritten(d, r, d', on)
    requires Persisted(CkPair(d), r, CkPair(d'), on)
    ensures RecoversLegacy(d') <==> CkPair(d') != Put(CkPair(d), r)
    ensures on ==> !RecoversLegacy(d')
  {
    hide LoadCheckpoint, LoadLegacy, EncodeCheckpoint, RecoversLegacy, Sound, Persisted;
    LoadEncodeCheckpoint(r);
    PersistSound(CkPair(d), cur, r, CkPair(d'), on, ZERO_CHECKPOINT);
    LegacyHasSlot(d);
    LegacyInSlot(d, cur);
    OtherSlot(d, cur, r, d', on);
    if CkPair(d') == Put(CkPair(d), r) {
      LegacyInSlot(d', r);
    } else {
      LegacyInSlot(d', cur);
    }
  }

  lemma LegacyHasSlot(d: Disk)
    requires RecoversLegacy(d)
    ensures CkPair(d) != Pair(None, None)
  {
    hide LoadCheckpoint, LoadEither;
  }

  /** Which format is recovered is the format of the slot the newest record's counter selects. */
  lemma LegacyInSlot(d: Disk, cur: Rec<Checkpoint>)
    requires Sound(CkPair(d), cur, ZERO_CHECKPOINT) && CkPair(d) != Pair(None, None)
    ensures RecoversLegacy(d) <==> LoadCheckpoint(SlotFile(d, cur.writes)).None?
  {
    hide LoadCheckpoint, LoadEither;
  }

  /** A rewrite leaves the newest record's slot alone; it lands exactly when its own slot holds the record. */
  lemma OtherSlot(d: Disk, cur: Rec<Checkpoint>, r: Rec<Checkpoint>, d': Disk, on: bool)
    requires Sound(CkPair(d), cur, ZERO_CHECKPOINT) && CkPair(d) != Pair(None, None)
    requires cur.writes < U32_MAX && r.writes == Inc32(cur.writes) && SlotWritten(d, r, d', on)
    ensures SlotFile(d', cur.writes) == SlotFile(d, cur.writes) && CkPair(d') != Pair(None, None)
    ensures CkPair(d') == Put(CkPair(d), r) <==> SlotFile(d', r.writes) == EncodeCheckpoint(r)
    ensures on ==> CkPair(d') == Put(CkPair(d), r)
  {
    hide LoadEither, EncodeCheckpoint;
    LoadEitherEncoded(r);
  }

  /** One boot of a series: its boot id, the checkpoint in memory, and whether power stayed on. */
  datatype BootTry = BootTry(bootId: u32, cp: Rec<Checkpoint>, on: bool)

  predicate BootSeries(disks: seq<Disk>, boots: seq<BootTry>)
  {
    && |disks| == |boots| + 1
    && forall i :: 0 <= i < |boots| ==> Begun(disks[i], boots[i].bootId, boots[i].cp, disks[i + 1], boots[i].on)
  }

  /** A device whose newest checkpoint is a legacy one, booted any number of times, power cut anywhere in each
      rewrite: every boot recovers the same lifetime total and number; the first boot that finishes retires the
      legacy format, and from then on nothing is rewritten. */
  lemma {:induction false} MigrationKeepsTotal(disks: seq<Disk>, boots: seq<BootTry>, n: nat)
    requires BootSeries(disks, boots) && n < |disks|
    requires var first := Newest(CkPair(disks[0]), ZERO_CHECKPOINT);
      RecoversLegacy(disks[0]) && Sound(CkPair(disks[0]), first, ZERO_CHECKPOINT) && first.writes < U32_MAX - 1
    ensures var first, now := Newest(CkPair(disks[0]), ZERO_CHECKPOINT), Newest(CkPair(disks[n]), ZERO_CHECKPOINT);
      && Sound(CkPair(disks[n]), now, ZERO_CHECKPOINT)
      && now.body.total == first.body.total && now.body.seqNo == first.body.seqNo
      && now.writes == (if RecoversLegacy(disks[n]) then first.writes else first.writes + 1)
    ensures n > 0 && boots[n - 1].on ==> !RecoversLegacy(disks[n])
    ensures n > 0 && !RecoversLegacy(disks[n - 1]) ==> disks[n] == disks[n - 1]
  {
    hide RecoversLegacy, CkPair, Newest, Sound, SlotWritten;
    if n > 0 {
      MigrationKeepsTotal(disks, boots, n - 1);
      var b := boots[n - 1];
      assert Begun(disks[n - 1], b.bootId, b.cp, disks[n], b.on);
      BootKeepsRecord(disks[n - 1], b.bootId, b.cp, disks[n], b.on);
    }
  }
}
