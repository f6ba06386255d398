/** The receiving server for one device: idempotent storage, quarantine, and the cumulative acknowledgement. */
module Server {
  import opened Bytes

  const CURRENT_SCHEMA_VERSION := 1
  const RECORD_TYPE_TELEMETRY := 1

  /** A record as it arrives: any field may be absent. */
  datatype Incoming = Incoming(schema: Option<int>, rtype: Option<int>, boot: Option<int>, seqNo: Option<int>,
                               ts: Option<int>, totalizer: Option<int>, quality: Option<int>, rssi: Option<int>)

  /** What a stored record says about the meter. */
  datatype Reading = Reading(boot: int, ts: int, totalizer: int, quality: int, rssi: int)

  /** A row of the records table; the table is keyed by sequence number. */
  datatype Stored = Stored(reading: Reading, recvMs: int, kver: int)

  datatype Reason = UnsupportedSchema | UnknownType | MissingField
  datatype Verdict = Accept(seqNo: int, reading: Reading) | Quarantine(reason: Reason)

  /** A row of the quarantine table, unique where seq and schema version are both present. */
  datatype Quarantined = Quarantined(seqNo: Option<int>, schema: Option<int>, reason: Reason)

  datatype Tables = Tables(records: map<int, Stored>, quarantined: seq<Quarantined>)

  function Or(o: Option<int>, default: int): int
  {
    if o.Some? then o.value else default
  }

  function Judge(r: Incoming): Verdict
  {
    if r.schema != Some(CURRENT_SCHEMA_VERSION) then Quarantine(UnsupportedSchema)
    else if Or(r.rtype, RECORD_TYPE_TELEMETRY) != RECORD_TYPE_TELEMETRY then Quarantine(UnknownType)
    else if r.boot.None? || r.seqNo.None? || r.ts.None? || r.totalizer.None? then Quarantine(MissingField)
    else Accept(r.seqNo.value, Reading(r.boot.value, r.ts.value, r.totalizer.value, Or(r.quality, 0), Or(r.rssi, 0)))
  }

  predicate Clashes(q: Quarantined, table: seq<Quarantined>)
  {
    && q.seqNo.Some? && q.schema.Some?
    && exists i :: 0 <= i < |table| && table[i].seqNo == q.seqNo && table[i].schema == q.schema
  }

  /** Insert, ignoring duplicates. */
  function StoreOne(t: Tables, r: Incoming, nowMs: int, kver: int): Tables
  {
    match Judge(r)
    case Accept(s, reading) =>
      if s in t.records then t else t.(records := t.records[s := Stored(reading, nowMs, kver)])
    case Quarantine(reason) =>
      var q := Quarantined(r.seqNo, r.schema, reason);
      if Clashes(q, t.quarantined) then t else t.(quarantined := t.quarantined + [q])
  }

  function StoreAll(t: Tables, batch: seq<Incoming>, nowMs: int, kver: int): Tables
    decreases |batch|
  {
    if batch == [] then t
    else StoreOne(StoreAll(t, batch[..|batch| - 1], nowMs, kver), batch[|batch| - 1], nowMs, kver)
  }

  /** Every sequence number with a final disposition. */
  function Resolved(t: Tables): set<int>
  {
    t.records.Keys + QuarantinedSeqs(t.quarantined)
  }

  function QuarantinedSeqs(q: seq<Quarantined>): set<int>
  {
    set i | 0 <= i < |q| && q[i].seqNo.Some? :: q[i].seqNo.value
  }

  /** The largest n such that n, n-1, ..., `from`+1 are all resolved. */
  function Climb(resolved: set<int>, from: nat): (n: nat)
    ensures from <= n && n + 1 !in resolved
    ensures forall i :: from < i <= n ==> i in resolved
    decreases resolved - Upto(resolved, from)
  {
    if from + 1 in resolved then
      assert from + 1 !in Upto(resolved, from) && from + 1 in Upto(resolved, from + 1);
      Climb(resolved, from + 1)
    else from
  }

  function Upto(resolved: set<int>, n: int): set<int>
  {
    set i | i in resolved && i <= n
  }

  function Watermark(resolved: set<int>): nat
  {
    Climb(resolved, 0)
  }

  // --- the endpoint ----------------------------------------------------------------------

  class Server {
    var tables: Tables

    constructor ()
      ensures tables == Tables(map[], [])
    {
      tables := Tables(map[], []);
    }

    /** Stores what is new in the batch and answers the cumulative acknowledgement. */
    method Push(batch: seq<Incoming>, nowMs: int, kver: int) returns (ack: nat)
      modifies this
      ensures tables == StoreAll(old(tables), batch, nowMs, kver)
      ensures ack == Watermark(Resolved(tables))
    {
      for i := 0 to |batch|
        invariant tables == StoreAll(old(tables), batch[..i], nowMs, kver)
      {
        assert batch[..i + 1][..i] == batch[..i];
        var r := batch[i];
        var v := Judge(r);
        if v.Quarantine? {
          var q := Quarantined(r.seqNo, r.schema, v.reason);
          if !Clashes(q, tables.quarantined) {
            tables := tables.(quarantined := tables.quarantined + [q]);
          }
          continue;
        }
        if v.seqNo !in tables.records {
          tables := tables.(records := tables.records[v.seqNo := Stored(v.reading, nowMs, kver)]);
        }
      }
      assert batch[..|batch|] == batch;
      var rows := SelectOrdered(Resolved(tables));
      ack := Contiguous(rows, Resolved(tables));
    }
  }

  /** The resolved sequence numbers in ascending order. */
  method SelectOrdered(s: set<int>) returns (rows: seq<int>)
    ensures forall i, j :: 0 <= i < j < |rows| ==> rows[i] < rows[j]
    ensures forall x :: x in rows <==> x in s
  {
    rows := [];
    var rest := s;
    while rest != {}
      invariant rest <= s
      invariant forall i, j :: 0 <= i < j < |rows| ==> rows[i] < rows[j]
      invariant forall i, x :: 0 <= i < |rows| && x in rest ==> rows[i] < x
      invariant forall x :: x in s <==> x in rows || x in rest
      decreases rest
    {
      SmallestExists(rest);
      var least :| least in rest && forall x :: x in rest ==> least <= x;
      rows := rows + [least];
      rest := rest - {least};
    }
  }

  lemma {:induction false} SmallestExists(s: set<int>)
    requires s != {}
    ensures exists least :: least in s && forall x :: x in s ==> least <= x
    decreases |s|
  {
    var y := Any(s);
    if s != {y} {
      var rest := s - {y};
      assert s == rest + {y};
      SmallestExists(rest);
      var m :| m in rest && forall x :: x in rest ==> m <= x;
      var least := if y < m then y else m;
      assert least in s && forall x :: x in s ==> least <= x;
    } else {
      assert y in s && forall x :: x in s ==> y <= x;
    }
  }

  ghost function Any<T>(s: set<T>): (y: T)
    requires s != {}
    ensures y in s
  {
    var y :| y in s;
    y
  }

  /** Walks the ascending rows and stops at the first gap. */
  method Contiguous(rows: seq<int>, ghost resolved: set<int>) returns (contig: nat)
    requires forall i, j :: 0 <= i < j < |rows| ==> rows[i] < rows[j]
    requires forall x :: x in rows <==> x in resolved
    ensures contig == Watermark(resolved)
  {
    contig := 0;
    for i := 0 to |rows|
      invariant forall n :: 1 <= n <= contig ==> n in resolved
      invariant forall k :: 0 <= k < i ==> rows[k] <= contig
    {
      if rows[i] == contig + 1 {
        contig := rows[i];
      } else if rows[i] > contig + 1 {
        break;
      }
    }
    WatermarkUnique(resolved, contig);
  }

  // --- what the acknowledgement means ------------------------------------------------------

  lemma WatermarkUnique(resolved: set<int>, n: nat)
    requires (forall i :: 1 <= i <= n ==> i in resolved) && n + 1 !in resolved
    ensures n == Watermark(resolved)
  {
  }

  /** The acknowledgement is n or more exactly when 1 to n are all accepted or quarantined. */
  lemma WatermarkIsLargest(resolved: set<int>, n: nat)
    ensures n <= Watermark(resolved) <==> forall i :: 1 <= i <= n ==> i in resolved
  {
  }

  lemma StoreOneGrows(t: Tables, r: Incoming, nowMs: int, kver: int)
    ensures Resolved(t) <= Resolved(StoreOne(t, r, nowMs, kver))
    ensures t.records.Keys <= StoreOne(t, r, nowMs, kver).records.Keys
    ensures forall s :: s in t.records ==> StoreOne(t, r, nowMs, kver).records[s] == t.records[s]
    ensures r.seqNo.Some? ==> r.seqNo.value in Resolved(StoreOne(t, r, nowMs, kver))
  {
    var t' := StoreOne(t, r, nowMs, kver);
    assert forall i :: 0 <= i < |t.quarantined| ==> t'.quarantined[i] == t.quarantined[i];
    if r.seqNo.Some? && Judge(r).Quarantine? {
      var q := Quarantined(r.seqNo, r.schema, Judge(r).reason);
      if !Clashes(q, t.quarantined) {
        assert t'.quarantined[|t.quarantined|] == q;
      }
    }
  }

  lemma {:induction false} StoreAllGrows(t: Tables, batch: seq<Incoming>, nowMs: int, kver: int)
    ensures Resolved(t) <= Resolved(StoreAll(t, batch, nowMs, kver))
    ensures forall s :: s in t.records ==>
      s in StoreAll(t, batch, nowMs, kver).records && StoreAll(t, batch, nowMs, kver).records[s] == t.records[s]
    ensures forall i :: 0 <= i < |batch| && batch[i].seqNo.Some? ==>
      batch[i].seqNo.value in Resolved(StoreAll(t, batch, nowMs, kver))
    decreases |batch|
  {
    if batch != [] {
      var init, last := batch[..|batch| - 1], batch[|batch| - 1];
      StoreAllGrows(t, init, nowMs, kver);
      StoreOneGrows(StoreAll(t, init, nowMs, kver), last, nowMs, kver);
      forall i | 0 <= i < |batch| && batch[i].seqNo.Some?
        ensures batch[i].seqNo.value in Resolved(StoreAll(t, batch, nowMs, kver))
      {
        if i < |init| {
          assert init[i] == batch[i];
        }
      }
    }
  }

  /** The acknowledgement never goes back, whatever is pushed. */
  lemma AckNeverDecreases(t: Tables, batch: seq<Incoming>, nowMs: int, kver: int)
    ensures Watermark(Resolved(t)) <= Watermark(Resolved(StoreAll(t, batch, nowMs, kver)))
  {
    StoreAllGrows(t, batch, nowMs, kver);
    WatermarkIsLargest(Resolved(StoreAll(t, batch, nowMs, kver)), Watermark(Resolved(t)));
  }

  // --- what is accepted --------------------------------------------------------------------------------------

  /** A record of schema 1, of type 1 or none, with boot, number, time and total all there. */
  predicate Acceptable(r: Incoming)
  {
    && r.schema == Some(1) && (r.rtype == None || r.rtype == Some(1))
    && r.boot.Some? && r.seqNo.Some? && r.ts.Some? && r.totalizer.Some?
  }

  /** The row stored for it. */
  predicate StoredAs(r: Incoming, s: Stored, nowMs: int, kver: int)
    requires Acceptable(r)
  {
    && s.recvMs == nowMs && s.kver == kver
    && s.reading.boot == r.boot.value && s.reading.ts == r.ts.value && s.reading.totalizer == r.totalizer.value
    && s.reading.quality == (if r.quality.Some? then r.quality.value else 0)
    && s.reading.rssi == (if r.rssi.Some? then r.rssi.value else 0)
  }

  /** The first acceptable record of a batch with this number. */
  predicate FirstWith(batch: seq<Incoming>, i: int, n: int)
  {
    && 0 <= i < |batch| && Acceptable(batch[i]) && batch[i].seqNo == Some(n)
    && forall k :: 0 <= k < i ==> !(Acceptable(batch[k]) && batch[k].seqNo == Some(n))
  }

  predicate NoneWith(batch: seq<Incoming>, n: int)
  {
    forall k :: 0 <= k < |batch| ==> !(Acceptable(batch[k]) && batch[k].seqNo == Some(n))
  }

  lemma {:induction false} FirstOrNone(batch: seq<Incoming>, n: int)
    ensures NoneWith(batch, n) || exists i :: FirstWith(batch, i, n)
    decreases |batch|
  {
    if batch != [] {
      var init := batch[..|batch| - 1];
      FirstOrNone(init, n);
      if NoneWith(init, n) {
        assert forall k :: 0 <= k < |init| ==> init[k] == batch[k];
        assert NoneWith(batch, n) || FirstWith(batch, |batch| - 1, n);
      } else {
        var i :| FirstWith(init, i, n);
        assert FirstWith(batch, i, n);
      }
    }
  }

  /** One record, by its fields: it is stored under its number unless that is taken, or it is quarantined,
      for the first thing wrong with it, and the records are left alone. */
  lemma JudgedByFields(t: Tables, r: Incoming, nowMs: int, kver: int)
    ensures var t' := StoreOne(t, r, nowMs, kver);
      if Acceptable(r) then
        var n := r.seqNo.value;
        && t'.quarantined == t.quarantined && t'.records.Keys == t.records.Keys + {n}
        && (forall k :: k in t.records ==> t'.records[k] == t.records[k])
        && (n !in t.records ==> StoredAs(r, t'.records[n], nowMs, kver))
      else
        && t'.records == t.records
        && (t'.quarantined != t.quarantined ==>
              t'.quarantined == t.quarantined + [Quarantined(r.seqNo, r.schema, FirstFault(r))])
        && (t'.quarantined == t.quarantined <==> AlreadyThere(t.quarantined, r))
        && (t'.quarantined == t.quarantined ==> r.seqNo.Some? && r.seqNo.value in QuarantinedSeqs(t.quarantined))
  {
    if !Acceptable(r) {
      var q := Quarantined(r.seqNo, r.schema, FirstFault(r));
      QuarantineAdds(t.quarantined, q);
      assert |t.quarantined + [q]| == |t.quarantined| + 1;
    }
  }

  /** A quarantined record of the same number and schema version; a missing one is like no other. */
  predicate AlreadyThere(table: seq<Quarantined>, r: Incoming)
  {
    && r.seqNo.Some? && r.schema.Some?
    && exists k :: 0 <= k < |table| && table[k].seqNo == r.seqNo && table[k].schema == r.schema
  }

  /** What is wrong with a record that is not acceptable. */
  function FirstFault(r: Incoming): Reason
    requires !Acceptable(r)
  {
    if r.schema == None || r.schema.value != 1 then UnsupportedSchema
    else if r.rtype.Some? && r.rtype.value != 1 then UnknownType
    else MissingField
  }

  /** After any batch: a number is in the records exactly when it was before or an acceptable record of the
      batch carries it; what was there stays, and a new one is the first such record's, arrival included. */
  lemma {:induction false} RecordsExactly(t: Tables, batch: seq<Incoming>, nowMs: int, kver: int, n: int)
    ensures var t' := StoreAll(t, batch, nowMs, kver);
      && (n in t'.records <==> n in t.records || !NoneWith(batch, n))
      && (n in t.records ==> t'.records[n] == t.records[n])
      && (n !in t.records ==> forall i :: FirstWith(batch, i, n) ==> StoredAs(batch[i], t'.records[n], nowMs, kver))
    decreases |batch|
  {
    hide Judge, StoreOne;
    if batch != [] {
      var init, r := batch[..|batch| - 1], batch[|batch| - 1];
      assert forall k :: 0 <= k < |init| ==> init[k] == batch[k];
      RecordsExactly(t, init, nowMs, kver, n);
      JudgedByFields(StoreAll(t, init, nowMs, kver), r, nowMs, kver);
      FirstOrNone(init, n);
      assert NoneWith(batch, n) <==> NoneWith(init, n) && !(Acceptable(r) && r.seqNo == Some(n));
      forall i | FirstWith(batch, i, n)
        ensures if i < |init| then FirstWith(init, i, n) else NoneWith(init, n)
      {
      }
    }
  }

  /** After any batch: the quarantined numbers are those from before and those of its records that are not
      acceptable. */
  lemma {:induction false} QuarantinedExactly(t: Tables, batch: seq<Incoming>, nowMs: int, kver: int, n: int)
    ensures n in QuarantinedSeqs(StoreAll(t, batch, nowMs, kver).quarantined) <==>
      n in QuarantinedSeqs(t.quarantined) || exists i :: 0 <= i < |batch| && Faulty(batch[i], n)
    decreases |batch|
  {
    hide Judge, StoreOne, QuarantinedSeqs, Faulty;
    if batch != [] {
      var init, r := batch[..|batch| - 1], batch[|batch| - 1];
      assert forall k :: 0 <= k < |init| ==> init[k] == batch[k];
      QuarantinedExactly(t, init, nowMs, kver, n);
      OneQuarantined(StoreAll(t, init, nowMs, kver), r, nowMs, kver, n);
    }
  }

  predicate Faulty(r: Incoming, n: int)
  {
    !Acceptable(r) && r.seqNo == Some(n)
  }

  lemma OneQuarantined(t: Tables, r: Incoming, nowMs: int, kver: int, n: int)
    ensures n in QuarantinedSeqs(StoreOne(t, r, nowMs, kver).quarantined) <==>
      n in QuarantinedSeqs(t.quarantined) || Faulty(r, n)
  {
    hide Judge, StoreOne, QuarantinedSeqs;
    JudgedByFields(t, r, nowMs, kver);
    if !Acceptable(r) {
      QuarantineAdds(t.quarantined, Quarantined(r.seqNo, r.schema, FirstFault(r)));
      if StoreOne(t, r, nowMs, kver).quarantined == t.quarantined && r.seqNo == Some(n) {
        assert n in QuarantinedSeqs(t.quarantined);
      }
    }
  }

  // --- resending and reordering ---------------------------------------------------------------

  datatype PushCall = PushCall(batch: seq<Incoming>, nowMs: int, kver: int)

  function AfterPushes(t: Tables, calls: seq<PushCall>): Tables
    decreases |calls|
  {
    if calls == [] then t
    else
      var c := calls[|calls| - 1];
      StoreAll(AfterPushes(t, calls[..|calls| - 1]), c.batch, c.nowMs, c.kver)
  }

  function Sent(calls: seq<PushCall>): set<Incoming>
    decreases |calls|
  {
    if calls == [] then {} else Sent(calls[..|calls| - 1]) + InBatch(calls[|calls| - 1].batch)
  }

  function InBatch(batch: seq<Incoming>): set<Incoming>
  {
    set r | r in batch
  }

  /** What the records table says, without arrival times. */
  function Contents(t: Tables): map<int, Reading>
  {
    map s | s in t.records :: t.records[s].reading
  }

  /** One content per sequence number. */
  ghost predicate Consistent(sent: set<Incoming>)
  {
    forall a, b ::
      a in sent && b in sent && Judge(a).Accept? && Judge(b).Accept? && Judge(a).seqNo == Judge(b).seqNo ==>
        Judge(a).reading == Judge(b).reading
  }

  /** The tables hold exactly what was sent: one record per accepted sequence number with its content,
      and every quarantined sequence number. */
  ghost predicate Reflects(t: Tables, sent: set<Incoming>)
  {
    && (forall r :: r in sent && Judge(r).Accept? ==>
          Judge(r).seqNo in t.records && t.records[Judge(r).seqNo].reading == Judge(r).reading)
    && (forall s :: s in t.records ==> exists r :: r in sent && Judge(r).Accept? && Judge(r).seqNo == s)
    && (forall r :: r in sent && Judge(r).Quarantine? && r.seqNo.Some? ==>
          r.seqNo.value in QuarantinedSeqs(t.quarantined))
    && (forall s :: s in QuarantinedSeqs(t.quarantined) ==>
          exists r :: r in sent && Judge(r).Quarantine? && r.seqNo == Some(s))
  }

  lemma StoreOneReflects(t: Tables, sent: set<Incoming>, r: Incoming, nowMs: int, kver: int)
    requires Reflects(t, sent) && Consistent(sent + {r})
    ensures Reflects(StoreOne(t, r, nowMs, kver), sent + {r})
  {
    hide Judge;
    var t' := StoreOne(t, r, nowMs, kver);
    match Judge(r)
    case Accept(s, reading) =>
      assert r in sent + {r};
      if s in t.records {
        var first :| first in sent && Judge(first).Accept? && Judge(first).seqNo == s;
        assert first in sent + {r};
      }
    case Quarantine(reason) =>
      var q := Quarantined(r.seqNo, r.schema, reason);
      QuarantineAdds(t.quarantined, q);
  }

  lemma QuarantineAdds(table: seq<Quarantined>, q: Quarantined)
    ensures QuarantinedSeqs(table + [q]) == QuarantinedSeqs(table) + (if q.seqNo.Some? then {q.seqNo.value} else {})
    ensures Clashes(q, table) ==> q.seqNo.value in QuarantinedSeqs(table)
  {
    var longer := table + [q];
    forall s | s in QuarantinedSeqs(longer)
      ensures s in QuarantinedSeqs(table) || q.seqNo == Some(s)
    {
      var i :| 0 <= i < |longer| && longer[i].seqNo.Some? && longer[i].seqNo.value == s;
      if i < |table| {
        assert longer[i] == table[i];
      }
    }
    forall s | s in QuarantinedSeqs(table)
      ensures s in QuarantinedSeqs(longer)
    {
      var i :| 0 <= i < |table| && table[i].seqNo.Some? && table[i].seqNo.value == s;
      assert longer[i] == table[i];
    }
    assert longer[|table|] == q;
  }

  lemma {:induction false} StoreAllReflects(t: Tables, sent: set<Incoming>, batch: seq<Incoming>, nowMs: int, kver: int)
    requires Reflects(t, sent) && Consistent(sent + InBatch(batch))
    ensures Reflects(StoreAll(t, batch, nowMs, kver), sent + InBatch(batch))
    decreases |batch|
  {
    hide Judge, Reflects, StoreOne;
    if batch == [] {
      assert sent + InBatch(batch) == sent;
    } else {
      var init, last := batch[..|batch| - 1], batch[|batch| - 1];
      assert batch == init + [last];
      assert sent + InBatch(batch) == sent + InBatch(init) + {last};
      StoreAllReflects(t, sent, init, nowMs, kver);
      StoreOneReflects(StoreAll(t, init, nowMs, kver), sent + InBatch(init), last, nowMs, kver);
    }
  }

  lemma {:induction false} PushesReflect(calls: seq<PushCall>)
    requires Consistent(Sent(calls))
    ensures Reflects(AfterPushes(Tables(map[], []), calls), Sent(calls))
    decreases |calls|
  {
    hide Judge;
    if calls != [] {
      var init, c := calls[..|calls| - 1], calls[|calls| - 1];
      PushesReflect(init);
      StoreAllReflects(AfterPushes(Tables(map[], []), init), Sent(init), c.batch, c.nowMs, c.kver);
    }
  }

  /** Neither how records are batched, nor their order, nor how often they are resent matters: the same
      set of records leads to the same table contents and the same acknowledgement. */
  lemma OrderAndResendingIrrelevant(xs: seq<PushCall>, ys: seq<PushCall>)
    requires Sent(xs) == Sent(ys) && Consistent(Sent(xs))
    ensures var a, b := AfterPushes(Tables(map[], []), xs), AfterPushes(Tables(map[], []), ys);
      Contents(a) == Contents(b) && Watermark(Resolved(a)) == Watermark(Resolved(b))
  {
    hide Judge;
    var a, b := AfterPushes(Tables(map[], []), xs), AfterPushes(Tables(map[], []), ys);
    PushesReflect(xs);
    PushesReflect(ys);
    SameReflection(a, b, Sent(xs));
  }

  lemma SameReflection(a: Tables, b: Tables, sent: set<Incoming>)
    requires Reflects(a, sent) && Reflects(b, sent)
    ensures Contents(a) == Contents(b) && Resolved(a) == Resolved(b)
  {
    hide Judge, QuarantinedSeqs;
    ReflectionWithin(a, b, sent);
    ReflectionWithin(b, a, sent);
    var ca, cb := Contents(a), Contents(b);
    assert forall s :: s in ca ==> s in cb && ca[s] == cb[s];
    assert forall s :: s in cb ==> s in ca;
    assert QuarantinedSeqs(a.quarantined) == QuarantinedSeqs(b.quarantined);
    assert a.records.Keys == b.records.Keys by {
      assert forall s :: s in a.records.Keys ==> s in b.records;
      assert forall s :: s in b.records.Keys ==> s in a.records;
    }
  }

  lemma ReflectionWithin(a: Tables, b: Tables, sent: set<Incoming>)
    requires Reflects(a, sent) && Reflects(b, sent)
    ensures forall s :: s in a.records ==> s in b.records && a.records[s].reading == b.records[s].reading
    ensures QuarantinedSeqs(a.quarantined) <= QuarantinedSeqs(b.quarantined)
  {
    hide Judge, QuarantinedSeqs;
    forall s | s in a.records
      ensures s in b.records && a.records[s].reading == b.records[s].reading
    {
      var r :| r in sent && Judge(r).Accept? && Judge(r).seqNo == s;
    }
    forall s | s in QuarantinedSeqs(a.quarantined)
      ensures s in QuarantinedSeqs(b.quarantined)
    {
      var r :| r in sent && Judge(r).Quarantine? && r.seqNo == Some(s);
    }
  }

  /** A batch sent again changes no stored record, arrival times included. */
  lemma {:induction false} ResendChangesNothing(t: Tables, batch: seq<Incoming>, nowMs: int, kver: int)
    requires forall i :: 0 <= i < |batch| && Judge(batch[i]).Accept? ==> Judge(batch[i]).seqNo in t.records
    ensures StoreAll(t, batch, nowMs, kver).records == t.records
    decreases |batch|
  {
    hide Judge;
    if batch != [] {
      var init := batch[..|batch| - 1];
      assert forall i :: 0 <= i < |init| ==> init[i] == batch[i];
      ResendChangesNothing(t, init, nowMs, kver);
    }
  }
}
