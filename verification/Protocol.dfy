/** The meter and the server together: runs of appends, pushes, lost messages, power cuts and boots. */
module Protocol {
  import opened Bytes
  import opened Records
  import opened PingPong
  import opened QueueSpec
  import opened QueueLog
  import opened QueueInvariant
  import opened AckParsing
  import S = Server

  const PUSH_BATCH_MAX := 50

  /** A row as it travels. */
  function Wire(r: Row): S.Incoming
  {
    S.Incoming(Some(r.schema), Some(r.rtype), Some(r.boot), Some(r.seqNo), Some(r.ts), Some(r.total),
               Some(r.quality), Some(0 - r.rssi as int))
  }

  function WireAll(rows: seq<Row>): (w: seq<S.Incoming>)
    ensures |w| == |rows| && forall i :: 0 <= i < |rows| ==> w[i] == Wire(rows[i])
  {
    if rows == [] then [] else WireAll(rows[..|rows| - 1]) + [Wire(rows[|rows| - 1])]
  }

  function ReadingOf(r: Row): S.Reading
  {
    S.Reading(r.boot, r.ts, r.total, r.quality, 0 - r.rssi as int)
  }

  /** Rows carry the schema and type the server accepts. */
  predicate Telemetry(r: Row)
  {
    r.schema == S.CURRENT_SCHEMA_VERSION && r.rtype == S.RECORD_TYPE_TELEMETRY
  }

  /** The acknowledgement to apply, and whether it is not the one the server sent. */
  datatype Bounded = Bounded(ack: u32, clamped: bool)

  /** The acknowledgement that may be applied: the largest one that exceeds neither what the server sent
      nor the highest row it was sent. */
  function BoundAckSeq(parsed: u32, maxSent: u32): (r: Bounded)
    ensures r.ack <= parsed && r.ack <= maxSent && (r.ack == parsed || r.ack == maxSent)
    ensures r.clamped <==> r.ack != parsed
  {
    if parsed > maxSent then Bounded(maxSent, true) else Bounded(parsed, false)
  }

  // --- the system ------------------------------------------------------------------------

  /** `log` and `sent` are history: the rows ever confirmed and the sequence numbers ever transmitted. */
  datatype Sys = Sys(q: Dev, log: seq<Row>, tables: S.Tables, sent: set<u32>)

  /** What became of a push: whether the request reached the server, and the response bytes received. */
  datatype Exchange = Exchange(delivered: bool, response: Option<string>, nowMs: int, kver: int)

  datatype Event =
    | Append(row: Row, uptime: u32)
    | Service(total: u64, seqNo: u32)
    | Push(x: Exchange, boot: u32)
    | PowerCut
    | Boot(newBoot: u32)

  function Batch(q: Dev): seq<Row>
  {
    Take(Backlog(q), PUSH_BATCH_MAX)
  }

  function SeqsOf(rows: seq<Row>): set<u32>
  {
    set i | 0 <= i < |rows| :: rows[i].seqNo
  }

  function Received(t: S.Tables, batch: seq<Row>, x: Exchange): S.Tables
  {
    if x.delivered then S.StoreAll(t, WireAll(batch), x.nowMs, x.kver) else t
  }

  ghost predicate AppendStep(s: Sys, row: Row, uptime: u32, confirmed: bool, steady: bool, s': Sys)
  {
    && AppendSpec(s.q, row, uptime, confirmed, steady, s'.q)
    && s'.log == (if confirmed then s.log + [row] else s.log)
    && s'.tables == s.tables && s'.sent == s.sent
  }

  ghost predicate PushStep(s: Sys, x: Exchange, boot: u32, s': Sys)
  {
    var batch := Batch(s.q);
    if batch == [] then s' == s
    else
      && s'.log == s.log && s'.sent == s.sent + SeqsOf(batch)
      && s'.tables == Received(s.tables, batch, x)
      && ResponseEffect(s.q, batch[|batch| - 1].seqNo, x.response, boot, s'.q)
  }

  /** What a response, or none, does to a device that has sent rows up to `maxSent`. */
  ghost predicate ResponseEffect(q: Dev, maxSent: u32, response: Option<string>, boot: u32, q': Dev)
  {
    var a := if response.Some? then AckIn(response.value) else None;
    if a.None? then q' == q else AckSpec(q, BoundAckSeq(a.value, maxSent).ack, boot, q')
  }

  ghost predicate BootStep(s: Sys, boot: u32, steady: bool, q1: Dev, s': Sys)
  {
    && PowerOn(s.q, boot, q1)
    && (if q1.on then BeginSpec(q1, steady, s'.q) else s'.q == q1)
    && s'.log == s.log && s'.tables == s.tables && s'.sent == s.sent
  }

  /** One event of a run. Rows handed to append have fresh sequence numbers, and the counters of the
      ping-pong records have not wrapped. */
  ghost predicate Step(s: Sys, e: Event, s': Sys)
  {
    && DurableCp(s.q).writes < U32_MAX && DurableAck(s.q).writes < U32_MAX
    && match e
       case Append(row, uptime) =>
         && s.q.on && Telemetry(row) && Admissible(row, s.log, s.q.ack.body.acked)
         && exists confirmed, steady :: AppendStep(s, row, uptime, confirmed, steady, s')
       case Service(total, seqNo) =>
         s.q.on && ServiceStep(s.q, total, seqNo, s'.q) && s'.log == s.log && s'.tables == s.tables && s'.sent == s.sent
       case Push(x, boot) => s.q.on && PushStep(s, x, boot, s')
       case PowerCut => s' == s.(q := s.q.(on := false))
       case Boot(boot) => exists steady, q1 :: BootStep(s, boot, steady, q1, s')
  }

  /** The server answers with the acknowledgement it computes after storing. */
  ghost predicate Honest(e: Event, s': Sys)
  {
    e.Push? && e.x.response.Some? ==>
      e.x.delivered && exists tail :: e.x.response.value == ResponseBody(S.Watermark(S.Resolved(s'.tables)), tail)
  }

  // --- what every step keeps ---------------------------------------------------------------

  ghost predicate AllTelemetry(log: seq<Row>)
  {
    forall i :: 0 <= i < |log| ==> Telemetry(log[i])
  }

  /** Kept whatever the server answers: flash refines the log, and only transmitted rows are
      acknowledged. */
  ghost predicate SafeInv(s: Sys)
  {
    && Inv(s.q, s.log) && AllTelemetry(s.log)
    && (forall i :: 0 <= i < |s.log| && s.log[i].seqNo <= DurableAck(s.q).body.acked ==> s.log[i].seqNo in s.sent)
  }

  /** Row `i` is the first to carry its number. */
  predicate First(log: seq<Row>, i: int)
  {
    0 <= i < |log| && forall k :: 0 <= k < i ==> log[k].seqNo != log[i].seqNo
  }

  /** The first row that carries row `i`'s number, looking from `k` on. */
  function FirstFrom(log: seq<Row>, i: nat, k: nat): (f: nat)
    requires k <= i < |log| && forall j :: 0 <= j < k ==> log[j].seqNo != log[i].seqNo
    ensures f <= i && First(log, f) && log[f].seqNo == log[i].seqNo
    decreases i - k
  {
    if log[k].seqNo == log[i].seqNo then k else FirstFrom(log, i, k + 1)
  }

  function FirstOf(log: seq<Row>, i: nat): (f: nat)
    requires i < |log|
    ensures f <= i && First(log, f) && log[f].seqNo == log[i].seqNo
  {
    FirstFrom(log, i, 0)
  }

  /** Under number `n` the server holds the reading of the first confirmed row that carries it. */
  ghost predicate HoldsFirst(log: seq<Row>, t: S.Tables, n: int)
  {
    n in t.records && exists i :: First(log, i) && log[i].seqNo == n && t.records[n].reading == ReadingOf(log[i])
  }

  /** The server's tables hold readings of confirmed rows, each under its own sequence number. */
  ghost predicate StoredFrom(log: seq<Row>, t: S.Tables)
  {
    t.quarantined == [] && forall n :: n in t.records ==> HoldsFirst(log, t, n)
  }

  /** Kept when the server is the one modelled: everything acknowledged is stored there. */
  ghost predicate HonestInv(s: Sys)
  {
    SafeInv(s) && StoredFrom(s.log, s.tables) && DurableAck(s.q).body.acked <= S.Watermark(s.tables.records.Keys)
  }

  ghost predicate Start(s: Sys)
  {
    s.q.segs == map[] && s.q.ck == Pair(None, None) && s.q.ak == Pair(None, None) && !s.q.on
    && s.log == [] && s.tables == S.Tables(map[], []) && s.sent == {}
  }

  lemma StartHolds(s: Sys)
    requires Start(s)
    ensures HonestInv(s)
  {
    hide DiskInv, S.Watermark;
    FreshDevice(s.q);
  }

  /** A batch is a stretch of the log starting at the cursor. */
  lemma BatchIsStretch(q: Dev, log: seq<Row>)
    requires Inv(q, log) && q.on
    ensures var c := CursorIndex(q.Cursor());
      && c + |Batch(q)| <= |log| && Batch(q) == log[c..c + |Batch(q)|]
      && |Batch(q)| == Min(50, |log| - c) && q.unacked == |log| - c
      && (forall i :: 0 <= i < c ==> log[i].seqNo <= q.ack.body.acked)
      && (forall i :: c <= i < |log| ==> log[i].seqNo > q.ack.body.acked)
      && (forall i, j :: 0 <= i < j < |log| ==> log[i].seqNo <= log[j].seqNo)
  {
    hide Stored, Backlog, Unacked, Sound;
    CursorRefinesFullScan(q, log);
  }

  /** Every row up to the batch's last one is acknowledged already or in the batch. */
  lemma BatchCovers(q: Dev, log: seq<Row>, i: nat)
    requires Inv(q, log) && q.on && Batch(q) != [] && i < |log| && log[i].seqNo <= Batch(q)[|Batch(q)| - 1].seqNo
    ensures log[i].seqNo <= q.ack.body.acked || log[i].seqNo in SeqsOf(Batch(q))
  {
    hide Inv, Batch;
    BatchIsStretch(q, log);
    var c, n := CursorIndex(q.Cursor()), |Batch(q)|;
    assert Batch(q)[n - 1] == log[c + n - 1];
    if c <= i < c + n {
      assert Batch(q)[i - c] == log[i];
    } else if i >= c {
      assert log[i].seqNo == log[c + n - 1].seqNo;
    }
  }

  /** One step keeps the device's side whatever the response was, and whatever was removed was safe to
      remove. */
  lemma StepSafe(s: Sys, e: Event, s': Sys)
    requires SafeInv(s) && Step(s, e, s')
    ensures SafeInv(s') && DeletionSafe(s.q, s'.q, s.log)
    ensures DurableAck(s.q).body.acked <= DurableAck(s'.q).body.acked
    ensures s.sent <= s'.sent && s.log <= s'.log
  {
    hide Inv, DeletionSafe, AppendSpec, Admissible;
    match e
    case Append(row, uptime) => AppendSafe(s, row, uptime, s');
    case Service(total, seqNo) => ServiceSafe(s, total, seqNo, s');
    case Push(x, boot) => PushSafe(s, x, boot, s');
    case PowerCut => CutSafe(s, s');
    case Boot(boot) => BootSafe(s, boot, s');
  }

  lemma AppendSafe(s: Sys, row: Row, uptime: u32, s': Sys)
    requires SafeInv(s) && Step(s, Append(row, uptime), s')
    ensures SafeInv(s') && DeletionSafe(s.q, s'.q, s.log) && DurableAck(s'.q) == DurableAck(s.q)
    ensures s.log <= s'.log && s'.sent == s.sent
  {
    hide DiskInv, AppendSpec, CursorIndex;
    var confirmed, steady :| AppendStep(s, row, uptime, confirmed, steady, s');
    CpWritesCurrent(s.q, s.log);
    AppendKeepsInv(s.q, s.log, row, uptime, confirmed, steady, s'.q);
    AppendKeepsAck(s.q, row, uptime, confirmed, steady, s'.q);
    assert Admissible(row, s.log, s.q.ack.body.acked);
  }

  lemma AppendKeepsAck(q: Dev, row: Row, uptime: u32, confirmed: bool, steady: bool, q': Dev)
    requires AppendSpec(q, row, uptime, confirmed, steady, q')
    ensures q'.ak == q.ak && q'.ack == q.ack
  {
    hide KeepOk, EncodeRow;
  }

  lemma CpWritesCurrent(q: Dev, log: seq<Row>)
    requires Inv(q, log) && q.on
    ensures q.cp.writes == DurableCp(q).writes && q.ack == DurableAck(q)
  {
    hide DiskInv;
  }

  lemma ServiceSafe(s: Sys, total: u64, seqNo: u32, s': Sys)
    requires SafeInv(s) && Step(s, Service(total, seqNo), s')
    ensures SafeInv(s') && DeletionSafe(s.q, s'.q, s.log) && DurableAck(s'.q) == DurableAck(s.q)
    ensures s.log == s'.log && s'.sent == s.sent
  {
    hide DiskInv;
    CpWritesCurrent(s.q, s.log);
    ServiceKeepsInv(s.q, s.log, total, seqNo, s'.q);
  }

  lemma CutSafe(s: Sys, s': Sys)
    requires SafeInv(s) && Step(s, PowerCut, s')
    ensures SafeInv(s') && DeletionSafe(s.q, s'.q, s.log) && DurableAck(s'.q) == DurableAck(s.q)
    ensures s.log == s'.log && s'.sent == s.sent
  {
    hide Inv;
    CutKeepsInv(s.q, s.log);
  }

  lemma BootSafe(s: Sys, boot: u32, s': Sys)
    requires SafeInv(s) && Step(s, Boot(boot), s')
    ensures SafeInv(s') && DeletionSafe(s.q, s'.q, s.log) && DurableAck(s'.q) == DurableAck(s.q)
    ensures s.log == s'.log && s'.sent == s.sent
  {
    hide DiskInv, BeginSpec, PowerOn, DeletionSafe;
    var steady, q1 :| BootStep(s, boot, steady, q1, s');
    PowerOnKeepsDisk(s.q, s.log, boot, q1);
    PowerOnKeepsSegments(s.q, boot, q1, s'.q, s.log);
    if q1.on {
      BeginKeepsInv(q1, s.log, steady, s'.q);
    }
  }

  lemma PowerOnKeepsSegments(q: Dev, boot: u32, q1: Dev, q': Dev, log: seq<Row>)
    requires DiskInv(q, log) && DurableCp(q).writes < U32_MAX && PowerOn(q, boot, q1)
    ensures q1.segs == q.segs
    ensures DeletionSafe(q1, q', log) ==> DeletionSafe(q, q', log)
    ensures q' == q1 ==> DeletionSafe(q, q', log)
  {
    hide Stored, CursorOk, Ascending, SegRows;
    SoundRecovers(q.ck, DurableCp(q), Totalizer.ZERO_CHECKPOINT);
    if q1.ck != q.ck {
      PersistSound(q.ck, DurableCp(q), q1.cp, q1.ck, q1.on, Totalizer.ZERO_CHECKPOINT);
    }
  }

  lemma PushSafe(s: Sys, x: Exchange, boot: u32, s': Sys)
    requires SafeInv(s) && Step(s, Push(x, boot), s')
    ensures SafeInv(s') && DeletionSafe(s.q, s'.q, s.log)
    ensures DurableAck(s.q).body.acked <= DurableAck(s'.q).body.acked
    ensures s.log == s'.log && s.sent <= s'.sent
  {
    hide Inv, AckSpec, DeletionSafe, Batch, SeqsOf;
    CpWritesCurrent(s.q, s.log);
    var batch := Batch(s.q);
    NothingRemoved(s.q, s.log);
    if batch != [] {
      var a := if x.response.Some? then AckIn(x.response.value) else None;
      if a.Some? {
        var last := batch[|batch| - 1].seqNo;
        AckKeepsInv(s.q, s.log, BoundAckSeq(a.value, last).ack, boot, s'.q);
        forall i | 0 <= i < |s.log| && s.log[i].seqNo <= DurableAck(s'.q).body.acked
          ensures s.log[i].seqNo in s'.sent
        {
          if s.log[i].seqNo > s.q.ack.body.acked {
            BatchCovers(s.q, s.log, i);
          }
        }
      }
    }
  }

  lemma NothingRemoved(q: Dev, log: seq<Row>)
    ensures DeletionSafe(q, q, log)
  {
  }

  // --- the server's side ---------------------------------------------------------------------

  lemma WireAccepted(r: Row)
    requires Telemetry(r)
    ensures S.Judge(Wire(r)) == S.Accept(r.seqNo, ReadingOf(r))
  {
  }

  /** No number in the stretch from `c` on occurs before it. */
  ghost predicate NewFrom(log: seq<Row>, c: nat)
  {
    forall i, k :: 0 <= i < c && c <= k < |log| ==> log[i].seqNo != log[k].seqNo
  }

  /** Storing a stretch of the log leaves readings of first rows, and all numbers of the stretch among them. */
  lemma {:induction false} StoreRows(log: seq<Row>, t: S.Tables, c: nat, m: nat, nowMs: int, kver: int)
    requires StoredFrom(log, t) && AllTelemetry(log) && c + m <= |log| && NewFrom(log, c)
    ensures var t' := S.StoreAll(t, WireAll(log[c..c + m]), nowMs, kver);
      && StoredFrom(log, t') && t.records.Keys <= t'.records.Keys
      && forall i :: c <= i < c + m ==> log[i].seqNo in t'.records.Keys
    decreases m
  {
    hide S.Judge, S.StoreOne, S.StoreAll, StoredFrom, AllTelemetry, Wire, WireAll, First, NewFrom;
    if m > 0 {
      var last := c + m - 1;
      var before := S.StoreAll(t, WireAll(log[c..last]), nowMs, kver);
      StoreRows(log, t, c, m - 1, nowMs, kver);
      FirstOrBefore(log, c, last);
      StoreRow(log, before, last, nowMs, kver);
      StoreAllNext(log, t, c, last, nowMs, kver);
    } else {
      StoreNone(log, t, c, nowMs, kver);
    }
  }

  lemma StoreNone(log: seq<Row>, t: S.Tables, c: nat, nowMs: int, kver: int)
    requires c <= |log|
    ensures S.StoreAll(t, WireAll(log[c..c + 0]), nowMs, kver) == t
  {
    assert log[c..c] == [];
  }

  lemma StoreAllNext(log: seq<Row>, t: S.Tables, c: nat, last: nat, nowMs: int, kver: int)
    requires c <= last < |log|
    ensures S.StoreAll(t, WireAll(log[c..last + 1]), nowMs, kver) ==
      S.StoreOne(S.StoreAll(t, WireAll(log[c..last]), nowMs, kver), Wire(log[last]), nowMs, kver)
  {
    hide S.StoreOne, Wire;
    var rows := log[c..last + 1];
    assert rows[..|rows| - 1] == log[c..last] && rows[|rows| - 1] == log[last];
    assert WireAll(rows)[..|rows| - 1] == WireAll(log[c..last]);
  }

  lemma FirstOrBefore(log: seq<Row>, c: nat, j: nat)
    requires NewFrom(log, c) && c <= j < |log|
    ensures First(log, j) || exists k :: c <= k < j && log[k].seqNo == log[j].seqNo
  {
  }

  lemma StoreRow(log: seq<Row>, t: S.Tables, i: nat, nowMs: int, kver: int)
    requires StoredFrom(log, t) && AllTelemetry(log) && i < |log|
    requires First(log, i) || log[i].seqNo in t.records
    ensures var t' := S.StoreOne(t, Wire(log[i]), nowMs, kver);
      StoredFrom(log, t') && t.records.Keys <= t'.records.Keys && log[i].seqNo in t'.records.Keys
  {
    hide S.Judge;
    WireAccepted(log[i]);
    var t' := S.StoreOne(t, Wire(log[i]), nowMs, kver);
    forall n | n in t'.records
      ensures HoldsFirst(log, t', n)
    {
      if n in t.records {
        assert HoldsFirst(log, t, n) && t'.records[n] == t.records[n];
      } else {
        assert First(log, i) && log[i].seqNo == n;
      }
    }
  }

  lemma StoredFromLonger(log: seq<Row>, log': seq<Row>, t: S.Tables)
    requires StoredFrom(log, t) && log <= log'
    ensures StoredFrom(log', t)
  {
    forall n | n in t.records
      ensures HoldsFirst(log', t, n)
    {
      assert HoldsFirst(log, t, n);
      var i :| First(log, i) && log[i].seqNo == n && t.records[n].reading == ReadingOf(log[i]);
      assert First(log', i) by {
        assert forall k :: 0 <= k <= i ==> log'[k] == log[k];
      }
    }
  }

  lemma ResolvedIsStored(t: S.Tables)
    requires t.quarantined == []
    ensures S.Resolved(t) == t.records.Keys
  {
  }

  lemma MoreStoredNoLess(a: set<int>, b: set<int>)
    requires a <= b
    ensures S.Watermark(a) <= S.Watermark(b)
  {
    S.WatermarkIsLargest(b, S.Watermark(a));
  }

  lemma StepHonest(s: Sys, e: Event, s': Sys)
    requires HonestInv(s) && Step(s, e, s') && Honest(e, s')
    ensures HonestInv(s')
  {
    hide SafeInv, StoredFrom, S.Watermark, DeletionSafe;
    StepSafe(s, e, s');
    match e
    case Append(row, uptime) =>
      AppendSafe(s, row, uptime, s');
      StoredFromLonger(s.log, s'.log, s.tables);
      KeepsTables(s, e, s');
    case Service(total, seqNo) => ServiceSafe(s, total, seqNo, s'); KeepsTables(s, e, s');
    case Push(x, boot) => PushHonest(s, x, boot, s');
    case PowerCut => CutSafe(s, s'); KeepsTables(s, e, s');
    case Boot(boot) => BootSafe(s, boot, s'); KeepsTables(s, e, s');
  }

  lemma KeepsTables(s: Sys, e: Event, s': Sys)
    requires Step(s, e, s') && !e.Push?
    ensures s'.tables == s.tables
  {
    hide AppendSpec, ServiceStep, BeginSpec, PowerOn, Admissible;
  }

  /** What storing the device's next batch does to the tables. */
  lemma BatchStored(s: Sys, nowMs: int, kver: int)
    requires HonestInv(s) && s.q.on
    ensures var t' := S.StoreAll(s.tables, WireAll(Batch(s.q)), nowMs, kver);
      && StoredFrom(s.log, t') && s.tables.records.Keys <= t'.records.Keys
      && forall i :: 0 <= i < |Batch(s.q)| ==> Batch(s.q)[i].seqNo in t'.records.Keys
  {
    hide Inv, Batch, StoredFrom, S.Watermark, CursorIndex, S.StoreAll, WireAll, AllTelemetry;
    BatchIsStretch(s.q, s.log);
    var c, batch := CursorIndex(s.q.Cursor()), Batch(s.q);
    StoreRows(s.log, s.tables, c, |batch|, nowMs, kver);
    assert forall i :: 0 <= i < |batch| ==> batch[i] == s.log[c + i];
  }

  lemma PushHonest(s: Sys, x: Exchange, boot: u32, s': Sys)
    requires HonestInv(s) && Step(s, Push(x, boot), s') && Honest(Push(x, boot), s')
    ensures StoredFrom(s'.log, s'.tables) && DurableAck(s'.q).body.acked <= S.Watermark(s'.tables.records.Keys)
    ensures s'.tables.records.Keys >= s.tables.records.Keys
    ensures x.delivered ==> forall i :: 0 <= i < |Batch(s.q)| ==> Batch(s.q)[i].seqNo in s'.tables.records.Keys
  {
    hide Inv, AckSpec, Batch, StoredFrom, S.Watermark, DurableAck, AckIn, ResponseBody;
    CpWritesCurrent(s.q, s.log);
    var batch := Batch(s.q);
    if batch != [] {
      BatchStored(s, x.nowMs, x.kver);
      MoreStoredNoLess(s.tables.records.Keys, s'.tables.records.Keys);
      var a := if x.response.Some? then AckIn(x.response.value) else None;
      if a.Some? {
        var last := batch[|batch| - 1].seqNo;
        AckKeepsInv(s.q, s.log, BoundAckSeq(a.value, last).ack, boot, s'.q);
        var tail :| x.response.value == ResponseBody(S.Watermark(S.Resolved(s'.tables)), tail);
        ResponseRead(S.Watermark(S.Resolved(s'.tables)), tail);
        ResolvedWhenStored(s'.log, s'.tables);
      }
    }
  }

  lemma ResolvedWhenStored(log: seq<Row>, t: S.Tables)
    requires StoredFrom(log, t)
    ensures S.Resolved(t) == t.records.Keys
  {
    ResolvedIsStored(t);
  }

  // --- whole runs ----------------------------------------------------------------------------

  ghost predicate IsRun(states: seq<Sys>, events: seq<Event>)
  {
    && |states| == |events| + 1 && Start(states[0])
    && forall i :: 0 <= i < |events| ==> Step(states[i], events[i], states[i + 1])
  }

  ghost predicate HonestRun(states: seq<Sys>, events: seq<Event>)
  {
    IsRun(states, events) && forall i :: 0 <= i < |events| ==> Honest(events[i], states[i + 1])
  }

  lemma {:induction false} RunSafe(states: seq<Sys>, events: seq<Event>, n: nat)
    requires IsRun(states, events) && n < |states|
    ensures SafeInv(states[n])
  {
    hide Step, Start, SafeInv;
    if n == 0 {
      StartSafe(states[0]);
    } else {
      RunSafe(states, events, n - 1);
      StepSafe(states[n - 1], events[n - 1], states[n]);
    }
  }

  lemma StartSafe(s: Sys)
    requires Start(s)
    ensures SafeInv(s)
  {
    hide SafeInv;
    StartHolds(s);
    assert HonestInv(s);
  }

  lemma {:induction false} RunHonest(states: seq<Sys>, events: seq<Event>, n: nat)
    requires HonestRun(states, events) && n < |states|
    ensures HonestInv(states[n])
  {
    hide Step, Start, HonestInv, Honest;
    if n == 0 {
      StartHolds(states[0]);
    } else {
      RunHonest(states, events, n - 1);
      StepHonest(states[n - 1], events[n - 1], states[n]);
    }
  }
}
