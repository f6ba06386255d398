/** The device's main loop around the queue: boot, the telemetry tick, and the push cycle. */
module Firmware {
  import opened Bytes
  import opened Records
  import opened PingPong
  import opened Storage
  import opened QueueSpec
  import opened QueueInvariant
  import opened AckParsing
  import opened Protocol
  import T = Totalizer
  import Q = EventQueue

  const TELEMETRY_PERIOD_MS := 1000
  const PUSH_PERIOD_MS := 5000
  const BACKOFF_CAP_MS := 120000

  /** The sequence number to resume from after a boot. */
  function ResumeSeqFloor(checkpointSeq: u32, ackedSeq: u32): u32
  {
    if checkpointSeq >= ackedSeq then checkpointSeq else ackedSeq
  }

  /** The result of one HTTP exchange: whether the client could be set up at all, a status code and, with
      200, the response body. */
  datatype Reply = Reply(began: bool, code: int, body: string)

  class Meter {
    const flash: Flash
    const tot: T.Totalizer
    const queue: Q.EventQueue
    var seqNo: u32
    var bootId: u32
    var pushBackoffMs: nat
    var lastPushFailMs: u32

    constructor (flash: Flash)
      ensures this.flash == flash && Wired() && pushBackoffMs == 0
    {
      this.flash := flash;
      var t := new T.Totalizer(flash);
      tot := t;
      queue := new Q.EventQueue(t);
      seqNo, bootId, pushBackoffMs, lastPushFailMs := 0, 0, 0, 0;
    }

    predicate Wired()
    {
      tot.flash == flash && queue.flash == flash && queue.tot == tot
    }

    function View(): Dev
      reads queue, tot, flash
    {
      var d := flash.disk;
      Dev(d.segs, CkPair(d), AkPair(d), FlPair(d), flash.on, tot.cp, queue.ack, queue.fail, queue.unacked)
    }

    /** Power is back: recover the checkpoint, then the queue, then resume the numbering. */
    method Setup(newBoot: u32, listing: Option<seq<nat>>)
      requires Wired() && queue.Lists(listing)
      modifies this, queue, tot, flash
      ensures exists q1, m :: BootVia(old(View()), newBoot, flash.steady, listing.Some?, q1, m, View())
      ensures flash.on ==> seqNo == ResumeSeqFloor(tot.cp.body.seqNo, queue.ack.body.acked)
      ensures bootId == newBoot && pushBackoffMs == 0 && lastPushFailMs == 0
    {
      hide LoadEither, LoadAck, LoadFailure, BeginSpec, BeginVia, Newest, Persisted, SlotWritten;
      hide T.RecoversLegacy, T.Begun;
      ghost var q := View();
      bootId, pushBackoffMs, lastPushFailMs := newBoot, 0, 0;
      flash.on := true;
      tot.Begin(newBoot);
      ghost var q1 := View();
      if !flash.on {
        assert BootVia(q, newBoot, flash.steady, listing.Some?, q1, q1, View());
        return;
      }
      assert queue.View() == q1;
      queue.Begin(listing);
      ghost var q' := View();
      assert queue.View() == q';
      ghost var m :| BeginVia(q1, flash.steady, listing.Some?, m, q');
      seqNo := ResumeSeqFloor(tot.cp.body.seqNo, queue.ack.body.acked);
      assert View() == q';
      assert BootVia(q, newBoot, flash.steady, listing.Some?, q1, m, q');
    }

    /** One telemetry record: the row is made durable first, then total and number are checkpointed,
        whether or not the row was confirmed. */
    method Tick(sample: Row, uptime: u32) returns (ghost confirmed: bool)
      requires Wired() && flash.on
      modifies this`seqNo, queue, tot, flash
      ensures seqNo == Inc32(old(seqNo))
      ensures var row := sample.(seqNo := seqNo);
        exists m, total :: TickVia(old(View()), row, uptime, confirmed, flash.steady, m, total, View())
      ensures flash.on && flash.refuses == {} ==> confirmed
    {
      hide LoadEither, LoadAck, LoadFailure, AppendSpec, Persisted;
      seqNo := Inc32(seqNo);
      ghost var q := View();
      assert q == queue.View();
      confirmed := queue.Append(sample.(seqNo := seqNo), uptime);
      ghost var m := View();
      assert m == queue.View();
      if !flash.on {
        assert TickVia(q, sample.(seqNo := seqNo), uptime, confirmed, flash.steady, m, 0, View());
        return;
      }
      tot.Service(seqNo, 0);
      assert TickVia(q, sample.(seqNo := seqNo), uptime, confirmed, flash.steady, m, tot.cp.body.total, View());
    }

    /** Whether the retry window after a failed push is still open. */
    predicate BackingOff(nowMs: u32)
      reads this
    {
      pushBackoffMs > 0 && ClockSince(nowMs, lastPushFailMs) < pushBackoffMs
    }

    /** Sends the first unacknowledged rows and applies the acknowledgement in the reply, if any. Only a
        reply that carries one, after a status of 200, moves the queue. */
    method PushOnce(online: bool, nowMs: u32, reply: Reply, jitter: nat) returns (acked: bool)
      requires Wired() && flash.on && jitter < 1000
      modifies this`pushBackoffMs, this`lastPushFailMs, queue, flash
      ensures var batch := Batch(old(View()));
        var response := if reply.code == 200 then Some(reply.body) else None;
        if !online || old(BackingOff(nowMs)) || batch == [] || !reply.began then
          && !acked && View() == old(View())
          && pushBackoffMs == old(pushBackoffMs) && lastPushFailMs == old(lastPushFailMs)
        else
          && ResponseEffect(old(View()), batch[|batch| - 1].seqNo, response, bootId, View())
          && acked == (reply.code == 200 && AckIn(reply.body).Some?)
          && pushBackoffMs == (if acked then 0 else Widened(old(pushBackoffMs)) + jitter)
          && lastPushFailMs == (if acked then old(lastPushFailMs) else nowMs)
    {
      hide LoadEither, LoadAck, LoadFailure, AckSpec, ScanLog, AckIn;
      acked := false;
      if !online || BackingOff(nowMs) { return; }
      assert queue.View() == View();
      var blank := Row(0, 0, 0, 0, 0, 0, 0, 0);
      var out := new Row[PUSH_BATCH_MAX](_ => blank);
      var n := queue.Pending(out, PUSH_BATCH_MAX);
      if n == 0 { return; }
      if !reply.began { return; }
      ghost var batch := Batch(View());
      assert out[..n] == batch;
      var maxSent := out[n - 1].seqNo;
      assert maxSent == batch[|batch| - 1].seqNo;
      if reply.code != 200 {
        NotePushFailureBackoff(nowMs, jitter);
        return;
      }
      var a := ReadAck(reply.body);
      if a.None? {
        NotePushFailureBackoff(nowMs, jitter);
        return;
      }
      pushBackoffMs := 0;
      queue.AckThrough(BoundAckSeq(a.value, maxSent).ack, bootId);
      assert queue.View() == View();
      acked := true;
    }

    /** Opens the retry window: for at least ten seconds and at most 121 nothing is sent, and it is at least
        twice the window before it unless that was already at the cap, and no more than that and the jitter. */
    method NotePushFailureBackoff(nowMs: u32, jitter: nat)
      requires jitter < 1000
      modifies this`pushBackoffMs, this`lastPushFailMs
      ensures pushBackoffMs == Widened(old(pushBackoffMs)) + jitter && pushBackoffMs < 121_000
      ensures lastPushFailMs == nowMs
      ensures old(pushBackoffMs) == 0 ==> 10_000 <= pushBackoffMs < 11_000
      ensures var was := old(pushBackoffMs);
        was > 0 ==> Min(2 * was, 120_000) <= pushBackoffMs <= 2 * was + jitter
      ensures forall t: u32 :: BackingOff(t) <==> ClockSince(t, nowMs) < pushBackoffMs
      ensures old(pushBackoffMs) == 0 || old(pushBackoffMs) >= PUSH_PERIOD_MS ==>
        forall t: u32 :: ClockSince(t, nowMs) < 2 * PUSH_PERIOD_MS ==> BackingOff(t)
    {
      lastPushFailMs := nowMs;
      pushBackoffMs := Widened(pushBackoffMs) + jitter;
    }
  }

  /** The Boot event of a run, with `q1` the device after the totalizer's part and `m` the device after its
      segments were reconciled, which they are if the directory could be listed. */
  ghost predicate BootVia(q: Dev, boot: u32, steady: bool, listed: bool, q1: Dev, m: Dev, q': Dev)
  {
    PowerOn(q, boot, q1) && if q1.on then BeginVia(q1, steady, listed, m, q') else q' == q1
  }

  /** An Append event and, while power lasts, a Service event carrying the same number. */
  ghost predicate TickVia(q: Dev, row: Row, uptime: u32, confirmed: bool, steady: bool, m: Dev, total: u64, q': Dev)
  {
    && AppendSpec(q, row, uptime, confirmed, steady, m)
    && if m.on then ServiceStep(m, total, row.seqNo, q') else q' == m
  }

  /** Time elapsed on the 32-bit millisecond clock. */
  function ClockSince(now: u32, since: u32): (ms: nat)
    ensures ms < 0x1_0000_0000
  {
    (now - since) % 0x1_0000_0000
  }

  function Widened(backoff: nat): nat
  {
    if backoff > 0 then Min(backoff * 2, BACKOFF_CAP_MS) else 2 * PUSH_PERIOD_MS
  }

  /** The retry window after pushes that failed in a row, with their jitters. */
  function Backoff(jitters: seq<nat>): nat
    decreases |jitters|
  {
    if jitters == [] then 0 else Widened(Backoff(jitters[..|jitters| - 1])) + jitters[|jitters| - 1]
  }

  /** Ten seconds, twenty, forty, eighty, and then two minutes however many pushes fail, each with what the
      jitter has added up to. */
  lemma {:induction false} BackoffBounded(jitters: seq<nat>)
    requires forall i :: 0 <= i < |jitters| ==> jitters[i] < 1000
    ensures var b := Backoff(jitters);
      match |jitters|
      case 0 => b == 0
      case 1 => 10_000 <= b < 11_000
      case 2 => 20_000 <= b < 23_000
      case 3 => 40_000 <= b < 47_000
      case 4 => 80_000 <= b < 95_000
      case _ => 120_000 <= b < 121_000
    decreases |jitters|
  {
    if jitters != [] {
      BackoffBounded(jitters[..|jitters| - 1]);
    }
  }

  // --- the loop's order ------------------------------------------------------------------------

  datatype Kind = Ticking | Pushing

  /** Something the main loop did, and when. */
  datatype Action = Action(kind: Kind, at: u32)

  /** The two timers of the main loop, and everything done since boot. */
  datatype Loop = Loop(telemetry: u32, push: u32, done: seq<Action>)

  function Period(k: Kind): nat
  {
    if k == Ticking then TELEMETRY_PERIOD_MS else PUSH_PERIOD_MS
  }

  function Timer(l: Loop, k: Kind): u32
  {
    if k == Ticking then l.telemetry else l.push
  }

  /** If this is due, the timer restarts and it is done. */
  function Consider(l: Loop, k: Kind, now: u32): Loop
  {
    if ClockSince(now, Timer(l, k)) < Period(k) then l
    else
      var done := l.done + [Action(k, now)];
      if k == Ticking then l.(telemetry := now, done := done) else l.(push := now, done := done)
  }

  /** One pass of the loop at this time: the tick is considered before the push. */
  function Pass(l: Loop, now: u32): Loop
  {
    Consider(Consider(l, Ticking, now), Pushing, now)
  }

  function Passes(times: seq<u32>): Loop
    decreases |times|
  {
    if times == [] then Loop(0, 0, []) else Pass(Passes(times[..|times| - 1]), times[|times| - 1])
  }

  /** When something of this kind was last done; the clock starts from 0 at boot. */
  function LastAt(done: seq<Action>, k: Kind): u32
    decreases |done|
  {
    if done == [] then 0
    else if done[|done| - 1].kind == k then done[|done| - 1].at
    else LastAt(done[..|done| - 1], k)
  }

  /** Each thing was done at least its period after the last of its kind, and a push only after a tick. */
  ghost predicate Orderly(done: seq<Action>)
  {
    forall i :: 0 <= i < |done| ==>
      && ClockSince(done[i].at, LastAt(done[..i], done[i].kind)) >= Period(done[i].kind)
      && (done[i].kind == Pushing ==> TickedIn(done[..i]))
  }

  /** Whatever the clock does, a boot pushes nothing before its first telemetry tick; ticks are at least a
      second apart and pushes five; and after each pass neither is due. */
  lemma {:induction false} TickBeforePush(times: seq<u32>)
    ensures Orderly(Passes(times).done) && Recorded(Passes(times))
    ensures times != [] ==> ClockSince(times[|times| - 1], LastAt(Passes(times).done, Ticking)) < 1000
    ensures times != [] ==> ClockSince(times[|times| - 1], LastAt(Passes(times).done, Pushing)) < 5000
    decreases |times|
  {
    hide Orderly, LastAt, ClockSince;
    if times == [] {
      NothingDone();
    } else {
      var l, now := Passes(times[..|times| - 1]), times[|times| - 1];
      TickBeforePush(times[..|times| - 1]);
      Considered(l, Ticking, now);
      Considered(Consider(l, Ticking, now), Pushing, now);
    }
  }

  /** The timers hold when each thing was last done. */
  ghost predicate Recorded(l: Loop)
  {
    l.telemetry == LastAt(l.done, Ticking) && l.push == LastAt(l.done, Pushing)
  }

  lemma NothingDone()
    ensures Orderly([]) && Recorded(Loop(0, 0, []))
  {
  }

  lemma Considered(l: Loop, k: Kind, now: u32)
    requires Orderly(l.done) && Recorded(l)
    requires k == Pushing ==> ClockSince(now, l.telemetry) < 1000
    ensures var after := Consider(l, k, now);
      Orderly(after.done) && Recorded(after) && ClockSince(now, Timer(after, k)) < Period(k)
    ensures k == Pushing ==> Consider(l, k, now).telemetry == l.telemetry
  {
    hide Orderly;
    Done(l.done, Action(k, now));
    NoTickYet(l.done);
  }

  ghost predicate TickedIn(done: seq<Action>)
  {
    exists j :: 0 <= j < |done| && done[j].kind == Ticking
  }

  /** What one more action does to the record. */
  lemma Done(done: seq<Action>, a: Action)
    ensures forall k :: LastAt(done + [a], k) == if k == a.kind then a.at else LastAt(done, k)
    ensures (
      && Orderly(done) && ClockSince(a.at, LastAt(done, a.kind)) >= Period(a.kind)
      && (a.kind == Pushing ==> TickedIn(done))) ==> Orderly(done + [a])
  {
    hide ClockSince;
    var more := done + [a];
    assert more[..|done|] == done;
    assert forall i :: 0 <= i < |done| ==> more[..i] == done[..i];
  }

  /** Until the first tick nothing was done at all. */
  lemma NoTickYet(done: seq<Action>)
    requires Orderly(done)
    ensures done == [] || TickedIn(done)
  {
    if done != [] {
      assert done[0].kind == Ticking;
    }
  }
}
