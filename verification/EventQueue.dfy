/** The persistent telemetry queue: an append-only log in fixed-size segments with a durable read cursor. */
module EventQueue {
  import opened Bytes
  import opened Records
  import opened PingPong
  import opened Storage
  import opened QueueSpec
  import T = Totalizer

  const CHUNK_ROWS := 32

  /** The operation behind a failure code is one that this flash may refuse. */
  predicate Refused(refuses: set<Operation>, code: u32)
  {
    match code
    case 1 => OpenFile in refuses
    case 2 => TruncateFile in refuses
    case 3 => WriteRow in refuses
    case _ => false
  }

  class EventQueue {
    const flash: Flash
    const tot: T.Totalizer
    var ack: Rec<Ack>
    var fail: Rec<Failure>
    var unacked: nat

    constructor (tot: T.Totalizer)
      ensures this.tot == tot && flash == tot.flash
    {
      this.tot := tot;
      flash := tot.flash;
      ack, fail, unacked := Rec(0, ZERO_ACK), Rec(0, ZERO_FAILURE), 0;
    }

    function View(): Dev
      reads this, tot, flash
    {
      var d := flash.disk;
      Dev(d.segs, CkPair(d), AkPair(d), FlPair(d), flash.on, tot.cp, ack, fail, unacked)
    }

    predicate Wired()
    {
      tot.flash == flash
    }

    // --- reading -----------------------------------------------------------------------

    /** Fills `out` with up to `maxN` unacknowledged rows, in order, from the persisted cursor on. */
    method Pending(out: array<Row>, maxN: nat) returns (n: nat)
      requires maxN <= out.Length
      modifies out
      ensures n <= maxN && out[..n] == Take(Backlog(View()), maxN)
    {
      hide ScanFile, CkPair, AkPair, FlPair, Take;
      n := 0;
      var q := View();
      var seg: nat, off: nat, acked := ack.body.cursorSegment as nat, ack.body.cursorOffset as nat, ack.body.acked;
      var frontier := q.Frontier();
      assert out[..0] == [];
      assert Backlog(q) == out[..0] + ScanLog(q.segs, seg, off, frontier, acked);
      while n < maxN && seg <= frontier.seg
        invariant n <= maxN && View() == q
        invariant Take(Backlog(q), maxN) == Take(out[..n] + ScanLog(q.segs, seg, off, frontier, acked), maxN)
        decreases frontier.seg + 1 - seg
      {
        if seg !in q.segs { break; }
        var file, limit := q.segs[seg], Limit(q.segs, seg, frontier);
        if off > limit { off := limit; }
        ghost var rest := if seg == frontier.seg then [] else ScanLog(q.segs, seg + 1, 0, frontier, acked);
        assert ScanLog(q.segs, seg, off, frontier, acked) == ScanFile(file, off, limit, acked) + rest;
        n := ReadSegment(out, n, maxN, file, off, limit, acked, rest);
        seg := seg + 1;
        off := 0;
        if seg > frontier.seg { break; }
      }
      EnoughTaken(out[..n], ScanLog(q.segs, seg, off, frontier, acked), maxN);
    }

    /** The inner loop of Pending: one segment's rows are appended to what is already in `out`. */
    method ReadSegment(out: array<Row>, n0: nat, maxN: nat, file: bytes, off0: nat, limit: nat, acked: nat,
                       ghost rest: seq<Row>)
      returns (n: nat)
      requires n0 <= maxN <= out.Length
      modifies out
      ensures n0 <= n <= maxN
      ensures Take(old(out[..n0]) + (ScanFile(file, off0, limit, acked) + rest), maxN) == Take(out[..n] + rest, maxN)
    {
      hide ReadRow;
      n := n0;
      var off := off0;
      while n < maxN && off + ROW <= limit
        invariant n0 <= n <= maxN
        invariant Take(old(out[..n0]) + (ScanFile(file, off0, limit, acked) + rest), maxN)
               == Take(out[..n] + (ScanFile(file, off, limit, acked) + rest), maxN)
        decreases limit - off
      {
        if off + ROW > |file| { break; }
        var r := ReadRow(Cell(file, off));
        ghost var later := ScanFile(file, off + ROW, limit, acked);
        off := off + ROW;
        if r.None? || r.value.seqNo <= acked { continue; }
        assert out[..n] + (([r.value] + later) + rest) == (out[..n] + [r.value]) + (later + rest);
        out[n] := r.value;
        assert out[..n + 1] == out[..n] + [r.value];
        n := n + 1;
      }
    }

    /** The one full scan that seeds the backlog counter at boot. */
    method ComputeUnackedCount() returns (count: nat)
      ensures count == |Backlog(View())|
    {
      hide ScanFile, CkPair, AkPair, FlPair;
      var q := View();
      count := 0;
      var seg: nat, off: nat, acked := ack.body.cursorSegment as nat, ack.body.cursorOffset as nat, ack.body.acked;
      var frontier := q.Frontier();
      while seg <= frontier.seg
        invariant |Backlog(q)| == count + |ScanLog(q.segs, seg, off, frontier, acked)|
        decreases frontier.seg + 1 - seg
      {
        if seg !in q.segs { break; }
        var limit := Limit(q.segs, seg, frontier);
        if off > limit { off := limit; }
        var here := CountSegment(q.segs[seg], off, limit, acked);
        count := count + here;
        seg := seg + 1;
        off := 0;
        if seg > frontier.seg { break; }
      }
    }

    method CountSegment(file: bytes, off0: nat, limit: nat, acked: nat) returns (count: nat)
      ensures count == |ScanFile(file, off0, limit, acked)|
    {
      hide ReadRow;
      count := 0;
      var off := off0;
      while off + ROW <= limit
        invariant |ScanFile(file, off0, limit, acked)| == count + |ScanFile(file, off, limit, acked)|
        decreases limit - off
      {
        if off + ROW > |file| { break; }
        var r := ReadRow(Cell(file, off));
        off := off + ROW;
        if r.Some? && r.value.seqNo > acked { count := count + 1; }
      }
    }

    // --- appending -----------------------------------------------------------------------

    /** Confirms one row, or leaves the checkpoint where it was and counts the failure. While power lasts it
        fails only if the flash refuses the operation whose code it records. */
    method Append(row: Row, uptime: u32) returns (ghost confirmed: bool)
      requires Wired() && flash.on
      modifies this, tot, flash
      ensures AppendSpec(old(View()), row, uptime, confirmed, flash.steady, View())
      ensures flash.on && !confirmed ==> Refused(flash.refuses, fail.body.code)
      ensures flash.on && !confirmed && WriteHistory !in flash.refuses ==> View().fl == Put(old(View()).fl, fail)
    {
      hide LoadEither, LoadAck, LoadFailure, EncodeRow, KeepOk, IdealKeep, ReadRow;
      confirmed := false;
      ghost var q := View();
      var at := Target(tot.cp.body);
      ghost var file := FileOf(flash.disk.segs, at.seg);
      ghost var keep := IdealKeep(file, at.off);
      IdealKeepOk(file, at.off, flash.steady);
      var size := flash.AppendOpenSize(at.seg);
      if !flash.on {
        assert AppendWith(q, row, uptime, false, keep, flash.steady, View());
        return;
      }
      if size < 0 {
        RecordWriteFailure(OPEN_FAILED, uptime);
        assert AppendWith(q, row, uptime, false, keep, flash.steady, View());
        return;
      }
      var good, ok := Settle(at.seg, at.off, size);
      if good <= size && KeepOk(file, at.off, good, flash.steady) { keep := good; }
      if !flash.on {
        assert AppendWith(q, row, uptime, false, keep, flash.steady, View());
        return;
      }
      if !ok {
        RecordWriteFailure(TRUNCATE_FAILED, uptime);
        assert AppendWith(q, row, uptime, false, keep, flash.steady, View());
        return;
      }
      confirmed := WriteAndConfirm(q, row, uptime, at.seg, good);
      assert AppendWith(q, row, uptime, confirmed, keep, flash.steady, View());
    }

    /** Truncate-before-append: brings the segment to its last confirmed bytes, or further when more
        than one row of valid data lies past them. */
    method Settle(seg: nat, good: nat, size: nat) returns (keep: nat, ok: bool)
      requires Wired() && flash.on && size == |FileOf(flash.disk.segs, seg)| && seg in flash.disk.segs
      modifies flash
      ensures var file := FileOf(old(flash.disk).segs, seg);
        && ((keep <= size && KeepOk(file, good, keep, flash.steady)) || (!flash.on && flash.disk == old(flash.disk)))
        && (flash.disk == old(flash.disk) || (keep <= size && flash.disk == Truncated(old(flash.disk), seg, keep)))
        && (flash.on ==>
              flash.disk == if ok then Truncated(old(flash.disk), seg, keep) else old(flash.disk))
        && (flash.on && !ok ==> keep < size && TruncateFile in flash.refuses)
    {
      hide ReadRow;
      ghost var file := FileOf(flash.disk.segs, seg);
      assert file[..size] == file;
      keep, ok := good, true;
      if size > keep {
        if size - keep > ROW {
          keep := AdoptValidRows(seg, good, size);
          if !flash.on { return; }
        }
        if size > keep {
          ok := flash.TruncateTo(seg, keep);
        }
      } else if size < keep {
        keep := size;
      }
    }

    /** Scans forward in chunks and returns the end of the last valid row. */
    method AdoptValidRows(seg: nat, from: nat, fileSize: nat) returns (end: nat)
      requires Wired() && fileSize == |FileOf(flash.disk.segs, seg)| && from <= fileSize
      modifies flash
      ensures flash.disk == old(flash.disk) && (flash.on ==> old(flash.on))
      ensures var rows := ValidRows(FileOf(flash.disk.segs, seg), from);
        && from <= end <= from + RowBytes(rows) && (end - from) % ROW == 0
        && (flash.steady && flash.on ==> end == from + RowBytes(rows))
    {
      hide ReadRow;
      var file := FileOf(flash.disk.segs, seg);
      var rows: nat := 0;
      var stop := false;
      while !stop && from + RowBytes(rows) + ROW <= fileSize
        invariant flash.disk == old(flash.disk) && (flash.on ==> old(flash.on))
        invariant from + RowBytes(rows) <= fileSize
        invariant ValidRows(file, from) == rows + ValidRows(file, from + RowBytes(rows))
        invariant stop && flash.steady && flash.on ==> ValidRows(file, from + RowBytes(rows)) == 0
        decreases fileSize - RowBytes(rows), !stop
      {
        var off := from + RowBytes(rows);
        var want := Min(fileSize - off, RowBytes(CHUNK_ROWS));
        want := want - want % ROW;
        var data := flash.ReadAt(seg, off, want);
        if |data| < ROW {
          stop := true;
        } else {
          var valid := CheckChunk(data, file, off);
          rows := rows + valid;
          stop := valid < |data| / ROW;
        }
      }
      end := from + RowBytes(rows);
    }

    /** The leading valid rows of a chunk read at `off`. */
    method CheckChunk(data: bytes, ghost file: bytes, ghost off: nat) returns (valid: nat)
      requires off + |data| <= |file| && data == file[off..off + |data|] && |data| >= ROW
      ensures RowBytes(valid) <= |data|
      ensures ValidRows(file, off) == valid + ValidRows(file, off + RowBytes(valid))
      ensures valid < |data| / ROW ==> ValidRows(file, off + RowBytes(valid)) == 0
    {
      hide ReadRow;
      valid := 0;
      while valid < |data| / ROW
        invariant RowBytes(valid) <= |data|
        invariant ValidRows(file, off) == valid + ValidRows(file, off + RowBytes(valid))
      {
        CellOfChunk(file, off, |data|, RowBytes(valid));
        if ReadRow(Cell(data, RowBytes(valid))).None? { break; }
        valid := valid + 1;
      }
    }

    /** The write at the true end of the file, and only then the checkpoint. */
    method WriteAndConfirm(ghost q: Dev, row: Row, uptime: u32, seg: nat, good: nat) returns (ghost confirmed: bool)
      requires Wired() && flash.on && seg == Target(q.cp.body).seg && good <= |FileOf(q.segs, seg)|
      requires View() == q.(segs := q.segs[seg := FileOf(q.segs, seg)[..good]])
      modifies this, tot, flash
      ensures if confirmed then Confirmed(q, row, good, View()) else Unconfirmed(q, row, uptime, good, View())
      ensures flash.on && !confirmed ==> WriteRow in flash.refuses && fail.body.code == WRITE_SHORT
      ensures flash.on && !confirmed && WriteHistory !in flash.refuses ==> View().fl == Put(q.fl, fail)
    {
      hide LoadEither, LoadAck, LoadFailure, EncodeRow;
      confirmed := false;
      var data := EncodeRow(row);
      var written := flash.AppendWrite(seg, data);
      if !flash.on { return; }
      if written != |data| {
        RecordWriteFailure(WRITE_SHORT, uptime);
        return;
      }
      tot.SetQueueOffset(seg, Wrap32(good + ROW));
      confirmed := CkPair(flash.disk) == Put(q.ck, tot.cp);
      if !flash.on { return; }
      unacked := unacked + 1;
    }

    method RecordWriteFailure(code: u32, uptime: u32)
      requires Wired() && flash.on
      modifies this`fail, flash
      ensures fail == Next(old(fail), CountFailure(old(fail).body, uptime, code))
      ensures Persisted(FlPair(old(flash.disk)), fail, FlPair(flash.disk), false)
      ensures flash.on && WriteHistory !in flash.refuses ==> FlPair(flash.disk) == Put(FlPair(old(flash.disk)), fail)
      ensures flash.disk == old(flash.disk).(flA := flash.disk.flA, flB := flash.disk.flB)
    {
      fail := Next(fail, CountFailure(fail.body, uptime, code));
      var _ := flash.WriteFailure(fail);
    }

    // --- acknowledging -------------------------------------------------------------------

    /** Applies a cumulative acknowledgement: move the cursor, make it durable, then free segments. */
    method AckThrough(ackedSeq: u32, bootId: u32)
      requires Wired() && flash.on
      modifies this, flash
      ensures AckSpec(old(View()), ackedSeq, bootId, View())
    {
      hide WalkLog, LoadEither, LoadAck, LoadFailure;
      if ackedSeq <= ack.body.acked { return; }
      var q := View();
      var w := WalkCursor(ackedSeq);
      ack := Next(ack, Ack(ackedSeq, bootId, Wrap32(w.pos.seg), Wrap32(w.pos.off)));
      unacked := if w.cells <= unacked then unacked - w.cells else 0;
      flash.WriteAck(ack);
      if !flash.on { return; }
      RemoveSegments(q.Cursor().seg, w.pos.seg);
    }

    method WalkCursor(ackedSeq: u32) returns (w: Walk)
      ensures var q := View(); w == WalkLog(q.segs, q.Cursor().seg, q.Cursor().off, q.Frontier(), ackedSeq)
    {
      hide PassedCells, CkPair, AkPair, FlPair;
      var q := View();
      var seg: nat, off: nat := ack.body.cursorSegment as nat, ack.body.cursorOffset as nat;
      var frontier := q.Frontier();
      var cells := 0;
      ghost var goal := WalkLog(q.segs, seg, off, frontier, ackedSeq);
      while seg <= frontier.seg
        invariant var rest := WalkLog(q.segs, seg, off, frontier, ackedSeq);
          goal.pos == rest.pos && goal.cells == cells + rest.cells
        decreases frontier.seg + 1 - seg
      {
        if seg !in q.segs { break; }
        var limit := Limit(q.segs, seg, frontier);
        if off > limit { off := limit; }
        var passed := PassSegment(q.segs[seg], off, limit, ackedSeq);
        if seg < frontier.seg && off + RowBytes(passed) >= limit {
          cells := cells + passed;
          seg := seg + 1;
          off := 0;
        } else {
          return Walk(Pos(seg, off + RowBytes(passed)), cells + passed);
        }
      }
      w := Walk(Pos(seg, off), cells);
    }

    method PassSegment(file: bytes, off0: nat, limit: nat, ackedSeq: nat) returns (cells: nat)
      ensures cells == PassedCells(file, off0, limit, ackedSeq)
    {
      hide ReadRow;
      cells := 0;
      var off := off0;
      while off + ROW <= limit
        invariant PassedCells(file, off0, limit, ackedSeq) == cells + PassedCells(file, off, limit, ackedSeq)
        decreases limit - off
      {
        if off + ROW > |file| { break; }
        var r := ReadRow(Cell(file, off));
        if r.Some? && r.value.seqNo > ackedSeq { break; }
        off := off + ROW;
        cells := cells + 1;
      }
    }

    method RemoveSegments(lo: nat, hi: nat)
      requires flash.on
      modifies flash
      ensures flash.disk == old(flash.disk).(segs := flash.disk.segs)
      ensures var was, now := old(flash.disk).segs, flash.disk.segs;
        && now.Keys <= was.Keys && (forall s :: s in now ==> now[s] == was[s])
        && was.Keys - SegmentRange(lo, hi) <= now.Keys
        && (flash.on ==> now.Keys == was.Keys - SegmentRange(lo, hi))
    {
      var s := lo;
      while s < hi
        invariant lo <= s && (if lo <= hi then s <= hi else s == lo)
        invariant flash.disk == old(flash.disk).(segs := flash.disk.segs)
        invariant var was, now := old(flash.disk).segs, flash.disk.segs;
          && now.Keys <= was.Keys && (forall t :: t in now ==> now[t] == was[t])
          && was.Keys - SegmentRange(lo, s) <= now.Keys
          && (flash.on ==> now.Keys == was.Keys - SegmentRange(lo, s))
        decreases hi - s
      {
        flash.Remove(s);
        s := s + 1;
      }
    }

    // --- booting -------------------------------------------------------------------------

    /** `listing` is what the queue's directory holds, in directory order; None if it cannot be opened. */
    ghost predicate Lists(listing: Option<seq<nat>>)
      reads flash
    {
      listing.Some? ==>
        && (forall s :: s in flash.disk.segs <==> s in listing.value)
        && (forall i, j :: 0 <= i < j < |listing.value| ==> listing.value[i] != listing.value[j])
    }

    /** Recovers the acknowledgement record, reconciles the segments found on flash, recovers the failure
        history and seeds the backlog counter. */
    method Begin(listing: Option<seq<nat>>)
      requires Wired() && flash.on && Lists(listing)
      modifies this, tot, flash
      ensures exists m: Dev :: BeginVia(old(View()), flash.steady, listing.Some?, m, View())
    {
      hide LoadEither, LoadAck, LoadFailure, Newest, Swept, ScanLog;
      ghost var q := View();
      ack := Newest(AkPair(flash.disk), ZERO_ACK);
      assert View() == q.(ack := Newest(q.ak, ZERO_ACK));
      CleanupOrphanSegments(listing);
      ghost var m := View();
      if flash.on {
        fail := Newest(FlPair(flash.disk), ZERO_FAILURE);
        unacked := ComputeUnackedCount();
        assert Backlog(View()) == Backlog(m);
      }
      assert BeginVia(q, flash.steady, listing.Some?, m, View());
    }

    method CleanupOrphanSegments(listing: Option<seq<nat>>)
      requires Wired() && flash.on && Lists(listing)
      modifies tot, flash
      ensures if listing.Some? then SweepSpec(old(View()), flash.steady, View()) else View() == old(View())
    {
      if listing.Some? {
        Reconcile(listing.value);
      }
    }

    /** Adopts the highest segment if the checkpoint went backwards, otherwise removes strays. */
    method Reconcile(listing: seq<nat>)
      requires Wired() && flash.on && Lists(Some(listing))
      modifies tot, flash
      ensures SweepSpec(old(View()), flash.steady, View())
    {
      hide LoadEither, LoadAck, LoadFailure, ReadRow;
      var active, cursor := tot.cp.body.qSegment, ack.body.cursorSegment;
      var deleteIds, top := Candidates(listing, active, cursor);
      if listing != [] && top > Inc32(active) {
        assert top in flash.disk.segs;
        AdoptFrontier(top);
      } else {
        assert !Regressed(flash.disk.segs, active);
        RemoveAll(deleteIds);
        SweepDone(listing, deleteIds, old(View()), View());
      }
    }

    /** Pass one only enumerates: the highest id, and up to MAX_SWEEP ids to remove. */
    method Candidates(listing: seq<nat>, active: u32, cursor: u32) returns (ids: seq<nat>, top: nat)
      requires forall i, j :: 0 <= i < j < |listing| ==> listing[i] != listing[j]
      ensures forall s :: s in listing ==> s <= top
      ensures listing != [] ==> top in listing
      ensures |ids| <= MAX_SWEEP && (forall i, j :: 0 <= i < j < |ids| ==> ids[i] != ids[j])
      ensures forall s :: s in ids ==> s in listing && Sweepable(active, cursor, s)
      ensures |ids| < MAX_SWEEP ==> forall s :: s in listing && Sweepable(active, cursor, s) ==> s in ids
    {
      ids, top := [], 0;
      for i := 0 to |listing|
        invariant forall k :: 0 <= k < i ==> listing[k] <= top
        invariant i > 0 ==> top in listing[..i]
        invariant |ids| <= MAX_SWEEP && (forall k, j :: 0 <= k < j < |ids| ==> ids[k] != ids[j])
        invariant forall s :: s in ids ==> s in listing[..i] && Sweepable(active, cursor, s)
        invariant |ids| < MAX_SWEEP ==>
          forall k :: 0 <= k < i && Sweepable(active, cursor, listing[k]) ==> listing[k] in ids
      {
        var id := listing[i];
        if i == 0 || id > top { top := id; }
        if Sweepable(active, cursor, id) && |ids| < MAX_SWEEP {
          assert id !in listing[..i];
          ids := ids + [id];
        }
      }
    }

    /** Pass two only removes. */
    method RemoveAll(ids: seq<nat>)
      requires Wired() && flash.on
      modifies flash
      ensures flash.disk == old(flash.disk).(segs := flash.disk.segs)
      ensures var was, now := old(flash.disk).segs, flash.disk.segs;
        && now.Keys <= was.Keys && (forall s :: s in now ==> now[s] == was[s])
        && was.Keys - Elems(ids) <= now.Keys
        && (flash.on ==> now.Keys == was.Keys - Elems(ids))
    {
      for i := 0 to |ids|
        invariant flash.disk == old(flash.disk).(segs := flash.disk.segs)
        invariant var was, now := old(flash.disk).segs, flash.disk.segs;
          && now.Keys <= was.Keys && (forall s :: s in now ==> now[s] == was[s])
          && was.Keys - Elems(ids[..i]) <= now.Keys
          && (flash.on ==> now.Keys == was.Keys - Elems(ids[..i]))
      {
        flash.Remove(ids[i]);
        assert Elems(ids[..i + 1]) == Elems(ids[..i]) + {ids[i]};
      }
      assert ids[..|ids|] == ids;
    }

    /** The checkpoint went backwards: take the highest segment as the live one and delete nothing. */
    method AdoptFrontier(top: nat)
      requires Wired() && flash.on && IsHighest(flash.disk.segs, top)
      modifies tot, flash
      ensures var q, q' := old(View()), View();
        && q'.ak == q.ak && q'.ack == q.ack && q'.fl == q.fl && q'.fail == q.fail && q'.unacked == q.unacked
        && q'.segs == q.segs
        && ((!q'.on && q'.cp == q.cp && q'.ck == q.ck) || exists end :: Adopted(q, top, end, flash.steady, q'))
    {
      hide LoadEither, LoadAck, LoadFailure, ReadRow;
      ghost var q := View();
      var end := AdoptValidRows(top, 0, |flash.disk.segs[top]|);
      if !flash.on { return; }
      tot.SetQueueOffset(Wrap32(top), Wrap32(end));
      assert Adopted(q, top, end, flash.steady, View());
    }

    /** Operator command: everything written so far counts as acknowledged. */
    method ResetAckToCurrentPosition(currentSeq: u32)
      requires Wired() && flash.on
      modifies this, flash
      ensures ack == Next(old(ack), old(ack).body.(acked := currentSeq,
                cursorSegment := tot.cp.body.qSegment, cursorOffset := tot.cp.body.qOffset))
      ensures unacked == 0 && |Backlog(View())| == 0
      ensures Persisted(AkPair(old(flash.disk)), ack, AkPair(flash.disk), flash.on)
      ensures flash.disk == old(flash.disk).(akA := flash.disk.akA, akB := flash.disk.akB)
    {
      hide CkPair, AkPair, FlPair, Persisted, ReadRow;
      ack := Next(ack, ack.body.(acked := currentSeq,
        cursorSegment := tot.cp.body.qSegment, cursorOffset := tot.cp.body.qOffset));
      unacked := 0;
      flash.WriteAck(ack);
    }
  }

  function Elems(ids: seq<nat>): set<nat>
  {
    set s | s in ids
  }

  lemma {:induction false} ElemsSize(ids: seq<nat>)
    requires forall i, j :: 0 <= i < j < |ids| ==> ids[i] != ids[j]
    ensures |Elems(ids)| == |ids|
  {
    if ids != [] {
      var init, last := ids[..|ids| - 1], ids[|ids| - 1];
      ElemsSize(init);
      assert Elems(ids) == Elems(init) + {last};
    }
  }

  lemma {:induction false} SubsetSize(a: set<nat>, b: set<nat>)
    requires a <= b
    ensures |a| <= |b|
  {
    assert b == a + (b - a);
  }

  lemma SweepDone(listing: seq<nat>, ids: seq<nat>, q: Dev, q': Dev)
    requires forall s :: s in q.segs <==> s in listing
    requires forall i, j :: 0 <= i < j < |ids| ==> ids[i] != ids[j]
    requires forall s :: s in ids ==> s in listing && Sweepable(q.cp.body.qSegment, q.ack.body.cursorSegment, s)
    requires |ids| < MAX_SWEEP ==>
      forall s :: s in listing && Sweepable(q.cp.body.qSegment, q.ack.body.cursorSegment, s) ==> s in ids
    requires |ids| <= MAX_SWEEP
    requires q'.segs.Keys <= q.segs.Keys && (forall s :: s in q'.segs ==> q'.segs[s] == q.segs[s])
    requires q.segs.Keys - Elems(ids) <= q'.segs.Keys
    requires q'.on ==> q'.segs.Keys == q.segs.Keys - Elems(ids)
    ensures Swept(q, q')
  {
    var gone := q.segs.Keys - q'.segs.Keys;
    ElemsSize(ids);
    SubsetSize(gone, Elems(ids));
    if q'.on {
      assert gone == Elems(ids);
    }
  }

  lemma CellOfChunk(file: bytes, off: nat, len: nat, at: nat)
    requires off + len <= |file| && at + ROW <= len
    ensures Cell(file[off..off + len], at) == Cell(file, off + at)
  {
    var a, b := Cell(file[off..off + len], at), Cell(file, off + at);
    assert |a| == |b|;
    forall k | 0 <= k < ROW
      ensures a[k] == b[k]
    {
      assert file[off..off + len][at + k] == file[off + at + k];
    }
  }

  lemma EnoughTaken(got: seq<Row>, rest: seq<Row>, maxN: nat)
    requires |got| <= maxN && (|got| == maxN || rest == [])
    ensures Take(got + rest, maxN) == got
  {
    assert rest == [] ==> got + rest == got;
  }
}
