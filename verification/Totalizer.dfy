/** The pulse totalizer: a 16-bit hardware counter drained into a lifetime total, and the checkpoint
    that keeps the total and the queue's write position across power cuts. */
module Totalizer {
  import opened Bytes
  import opened Records
  import opened PingPong
  import opened Storage

  const ZERO_CHECKPOINT := Checkpoint(0, 0, 0, 0, 0)
  const COUNTER_LIMIT := 32767   // the hardware restarts from zero on reaching it
  const DRAIN_AT := 30000

  function Wrap64(x: nat): u64
  {
    x % 0x1_0000_0000_0000_0000
  }

  // --- counting, as a function of what happened --------------------------------------

  /** `saved` is the total in the checkpoint; the lifetime total is base + drained + hardware. */
  datatype Counter = Counter(base: nat, drained: nat, hw: nat, saved: nat) {
    function Total(): nat
    {
      base + drained + hw
    }

    function Pulsed(n: nat): Counter
    {
      this.(hw := (hw + n) % COUNTER_LIMIT)
    }

    function Injected(n: nat): Counter
    {
      this.(drained := drained + n)
    }

    /** One service call; `late` pulses arrive after the counter is read and before it is cleared. */
    function Serviced(late: nat): Counter
    {
      var c := if hw >= DRAIN_AT then this.(drained := drained + hw, hw := 0) else Pulsed(late);
      c.(saved := c.Total())
    }
  }

  /** A power-up: the hardware counter starts from zero on top of the recovered total. */
  function PowerUp(saved: nat): Counter
  {
    Counter(saved, 0, 0, saved)
  }

  datatype Event = Pulses(n: nat) | Soft(n: nat) | Service

  function After(c: Counter, events: seq<Event>): Counter
    decreases |events|
  {
    if events == [] then c
    else
      var d := After(c, events[..|events| - 1]);
      match events[|events| - 1]
      case Pulses(n) => d.Pulsed(n)
      case Soft(n) => d.Injected(n)
      case Service => d.Serviced(0)
  }

  /** Every pulse there was, hardware and injected. */
  function Arrived(events: seq<Event>): nat
    decreases |events|
  {
    if events == [] then 0
    else
      var e := events[|events| - 1];
      Arrived(events[..|events| - 1]) + (if e.Service? then 0 else e.n)
  }

  /** Hardware pulses since the last service call. */
  function Unserviced(events: seq<Event>): nat
    decreases |events|
  {
    if events == [] then 0
    else
      match events[|events| - 1]
      case Pulses(n) => Unserviced(events[..|events| - 1]) + n
      case Soft(_) => Unserviced(events[..|events| - 1])
      case Service => 0
  }

  predicate ServicedInTime(events: seq<Event>)
  {
    forall i :: 0 <= i <= |events| ==> Unserviced(events[..i]) <= 2767
  }

  /** What a run counted up to and including its last service call. */
  function ArrivedAtService(events: seq<Event>): nat
    decreases |events|
  {
    if events == [] then 0
    else if events[|events| - 1].Service? then Arrived(events)
    else ArrivedAtService(events[..|events| - 1])
  }

  /** With at most 2767 pulses between service calls nothing is lost, the hardware counter never
      reaches its limit, and the saved total is what had arrived at the last service call. */
  lemma {:induction false} NothingLost(saved: nat, events: seq<Event>)
    requires ServicedInTime(events)
    ensures var c := After(PowerUp(saved), events);
      && c.Total() == saved + Arrived(events)
      && c.hw < DRAIN_AT + Unserviced(events) && c.hw < COUNTER_LIMIT
      && c.saved == saved + ArrivedAtService(events)
      && ArrivedAtService(events) <= Arrived(events)
    decreases |events|
  {
    if events != [] {
      var before := events[..|events| - 1];
      forall i | 0 <= i <= |before|
        ensures Unserviced(before[..i]) <= 2767
      {
        assert before[..i] == events[..i];
      }
      NothingLost(saved, before);
      assert events[..|events|] == events;
    }
  }

  /** The bound is exact: 2767 is the largest burst that no counter left by a service call can lose. */
  lemma BurstBoundExact(n: nat)
    ensures (forall c: Counter :: c.hw < 30_000 ==> c.Pulsed(n).Total() == c.Total() + n) <==> n <= 2767
  {
    if n > 2767 {
      var worst := Counter(0, 0, DRAIN_AT - 1, 0);
      assert worst.Pulsed(n).hw < COUNTER_LIMIT;
      assert worst.Pulsed(n).Total() != worst.Total() + n;
    } else {
      forall c: Counter | c.hw < DRAIN_AT
        ensures c.Pulsed(n).Total() == c.Total() + n
      {
        assert (c.hw + n) % COUNTER_LIMIT == c.hw + n;
      }
    }
  }

  /** Pulses falling between the read and the clear of a drain are lost, and only those. */
  lemma LostInDrainWindow(c: Counter, late: nat)
    requires c.hw + late < COUNTER_LIMIT
    ensures c.Serviced(late).Total() == c.Total() + (if c.hw >= 30_000 then 0 else late)
  {
  }

  // --- the device object ------------------------------------------------------------------

  class Totalizer {
    const flash: Flash
    var cp: Rec<Checkpoint>
    var base: nat
    var accumulated: nat
    var hw: nat

    constructor (flash: Flash)
      ensures this.flash == flash && cp == Rec(0, ZERO_CHECKPOINT)
    {
      this.flash := flash;
      cp := Rec(0, ZERO_CHECKPOINT);
      base, accumulated, hw := 0, 0, 0;
    }

    function View(): Counter
      reads this
    {
      Counter(base, accumulated, hw, cp.body.total)
    }

    /** Recovers the newest readable checkpoint of either format; a legacy one is rewritten at once. */
    method Begin(bootId: u32)
      requires flash.on
      modifies this, flash
      ensures flash.disk == old(flash.disk).(ckA := flash.disk.ckA, ckB := flash.disk.ckB)
      ensures var was := Newest(CkPair(old(flash.disk)), ZERO_CHECKPOINT);
        && cp.body == was.body.(boot := bootId)
        && View() == PowerUp(was.body.total)
        && (if cp.writes == was.writes then flash.disk == old(flash.disk) && flash.on
            else cp.writes == Inc32(was.writes) && Persisted(CkPair(old(flash.disk)), cp, CkPair(flash.disk), flash.on))
      ensures Begun(old(flash.disk), bootId, cp, flash.disk, flash.on)
    {
      hide LoadCheckpoint, LoadLegacy, Persisted, SlotWritten;
      hw := 0;
      accumulated := 0;
      var a, b := LoadCheckpoint(flash.disk.ckA), LoadCheckpoint(flash.disk.ckB);
      var legA, legB := a.None?, b.None?;
      if legA { a := LoadLegacy(flash.disk.ckA); }
      if legB { b := LoadLegacy(flash.disk.ckB); }
      var usedLegacy := false;
      if a.Some? && b.Some? {
        var useA := a.value.writes >= b.value.writes;
        cp := if useA then a.value else b.value;
        usedLegacy := if useA then legA else legB;
      } else if a.Some? {
        cp, usedLegacy := a.value, legA;
      } else if b.Some? {
        cp, usedLegacy := b.value, legB;
      } else {
        cp := Rec(0, ZERO_CHECKPOINT);
      }
      cp := cp.(body := cp.body.(boot := bootId));
      base := cp.body.total;
      if usedLegacy {
        Persist();
      }
    }

    method Persist()
      requires flash.on
      modifies this`cp, flash
      ensures cp == Next(old(cp), old(cp).body)
      ensures flash.disk == old(flash.disk).(ckA := flash.disk.ckA, ckB := flash.disk.ckB)
      ensures SlotWritten(old(flash.disk), cp, flash.disk, flash.on)
      ensures Persisted(CkPair(old(flash.disk)), cp, CkPair(flash.disk), flash.on)
    {
      cp := cp.(writes := Inc32(cp.writes));
      flash.WriteCheckpoint(cp);
    }

    method Total() returns (total: nat)
      ensures total == View().Total()
    {
      total := base + accumulated + hw;
    }

    method Pulses(n: nat)
      modifies this`hw
      ensures View() == old(View()).Pulsed(n)
    {
      hw := (hw + n) % COUNTER_LIMIT;
    }

    method InjectSoftPulses(n: u32)
      modifies this`accumulated
      ensures View() == old(View()).Injected(n)
    {
      accumulated := accumulated + n;
    }

    /** Drains the counter when it is getting full and checkpoints total and sequence number. */
    method Service(seqNo: u32, late: nat)
      requires flash.on
      modifies this, flash
      ensures var c := old(View()).Serviced(late);
        && base == c.base && accumulated == c.drained && hw == c.hw
        && cp == Next(old(cp), Counted(old(cp).body, Wrap64(c.saved), seqNo))
      ensures flash.disk == old(flash.disk).(ckA := flash.disk.ckA, ckB := flash.disk.ckB)
      ensures Persisted(CkPair(old(flash.disk)), cp, CkPair(flash.disk), flash.on)
    {
      hide LoadCheckpoint, LoadLegacy, Persisted, SlotWritten;
      var c := hw;
      Pulses(late);
      if c >= DRAIN_AT {
        accumulated := accumulated + c;
        hw := 0;
      }
      cp := cp.(body := cp.body.(total := Wrap64(base + accumulated + hw), seqNo := seqNo));
      Persist();
    }

    method SetQueueOffset(segment: u32, offset: u32)
      requires flash.on
      modifies this`cp, flash
      ensures cp == Next(old(cp), ConfirmedUpTo(old(cp).body, segment, offset))
      ensures flash.disk == old(flash.disk).(ckA := flash.disk.ckA, ckB := flash.disk.ckB)
      ensures Persisted(CkPair(old(flash.disk)), cp, CkPair(flash.disk), flash.on)
    {
      cp := cp.(body := cp.body.(qSegment := segment, qOffset := offset));
      Persist();
    }
  }

  /** Whether recovery picks a slot still in the legacy format. */
  predicate RecoversLegacy(d: Disk)
  {
    var p := CkPair(d);
    if p.a.Some? && (p.b.Some? ==> p.a.value.writes >= p.b.value.writes) then LoadCheckpoint(d.ckA).None?
    else p.b.Some? && LoadCheckpoint(d.ckB).None?
  }

  /** What a boot does with the checkpoint slots: the newest is recovered as it is, and rewritten exactly when
      it is still in the legacy format. */
  predicate Begun(d: Disk, bootId: u32, cp: Rec<Checkpoint>, d': Disk, on: bool)
  {
    var was := Newest(CkPair(d), ZERO_CHECKPOINT);
    && cp.body == was.body.(boot := bootId)
    && if RecoversLegacy(d) then cp.writes == Inc32(was.writes) && SlotWritten(d, cp, d', on)
       else cp.writes == was.writes && d' == d && on
  }
}
