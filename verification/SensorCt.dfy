/** The current-clamp sensor: a debounced level turned into pulses by integrating time. */
module SensorCt {
  import opened Bytes

  const WRAP := 0x1_0000_0000

  /** The sensor's fields. Times are the device's 32-bit millisecond clock. */
  datatype Ct = Ct(pulseHz: u32, debounceMs: u32, initialized: bool, stable: bool, candidate: bool,
                   candidateSince: u32, lastService: u32, frac: u64)

  /** `a - b` on the 32-bit clock. */
  function Since(a: u32, b: u32): u32
  {
    (a - b) % WRAP
  }

  function Started(c: Ct, raw: bool, now: u32): Ct
  {
    c.(initialized := true, stable := raw, candidate := raw, candidateSince := now, lastService := now)
  }

  /** The level after a sample: a change restarts the debounce clock, a level held long enough commits. */
  function Debounced(c: Ct, raw: bool, now: u32): Ct
  {
    var d := if raw != c.candidate then c.(candidate := raw, candidateSince := now) else c;
    if d.candidate != d.stable && Since(now, d.candidateSince) >= d.debounceMs then d.(stable := d.candidate) else d
  }

  /** One call: the new state and the pulses to inject. */
  function Serviced(c: Ct, raw: bool, now: u32): (r: (Ct, u32))
  {
    if !c.initialized then (Started(c, raw, now), 0)
    else
      var elapsed := Since(now, c.lastService);
      var d := Debounced(c, raw, now).(lastService := now);
      if !d.stable then (d, 0)
      else
        var sum := Sum(d.frac, elapsed, d.pulseHz);
        (d.(frac := sum - 1000 * Whole(sum)), Whole(sum))
  }

  /** Milli-pulses due, in 64-bit arithmetic. */
  function Sum(frac: u64, elapsed: u32, pulseHz: u32): u64
  {
    (frac + elapsed * pulseHz) % 0x1_0000_0000_0000_0000
  }

  /** Whole pulses in them, cut to 32 bits. */
  function Whole(sum: u64): (w: u32)
    ensures 1000 * w <= sum
  {
    (sum / 1000) % WRAP
  }

  class Sensor {
    var ct: Ct

    constructor (pulseHz: u32, debounceMs: u32)
      ensures ct == Ct(pulseHz, debounceMs, false, false, false, 0, 0, 0)
    {
      ct := Ct(pulseHz, debounceMs, false, false, false, 0, 0, 0);
    }

    method Service(raw: bool, now: u32) returns (pulses: u32)
      modifies this
      ensures (ct, pulses) == Serviced(old(ct), raw, now)
    {
      hide Sum, Whole;
      if !ct.initialized {
        ct := ct.(initialized := true, stable := raw, candidate := raw, candidateSince := now, lastService := now);
        return 0;
      }
      var elapsed := Since(now, ct.lastService);
      ct := ct.(lastService := now);
      if raw != ct.candidate {
        ct := ct.(candidate := raw, candidateSince := now);
      }
      if ct.candidate != ct.stable && Since(now, ct.candidateSince) >= ct.debounceMs {
        ct := ct.(stable := ct.candidate);
      }
      if !ct.stable { return 0; }
      var sum := Sum(ct.frac, elapsed, ct.pulseHz);
      pulses := Whole(sum);
      ct := ct.(frac := sum - 1000 * pulses);
    }
  }

  // --- exact integration ---------------------------------------------------------------------

  datatype Sample = Sample(raw: bool, at: nat)

  /** The sensor after a run of samples, with everything emitted and the active time it counted.
      Sample times are true milliseconds; the sensor sees them modulo 2^32. */
  datatype Track = Track(ct: Ct, emitted: nat, counted: nat)

  function Fresh(pulseHz: u32, debounceMs: u32): Track
  {
    Track(Ct(pulseHz, debounceMs, false, false, false, 0, 0, 0), 0, 0)
  }

  function Tracked(t: Track, s: Sample): Track
  {
    var (c, pulses) := Serviced(t.ct, s.raw, s.at % WRAP);
    var elapsed := if t.ct.initialized && c.stable then Since(s.at % WRAP, t.ct.lastService) else 0;
    Track(c, t.emitted + pulses, t.counted + elapsed)
  }

  function Run(t: Track, samples: seq<Sample>): Track
    decreases |samples|
  {
    if samples == [] then t else Tracked(Run(t, samples[..|samples| - 1]), samples[|samples| - 1])
  }

  /** Pulses emitted and remainder together are exactly the frequency times the counted time. */
  predicate Exact(t: Track)
  {
    1000 * t.emitted + t.ct.frac == t.ct.pulseHz * t.counted && t.ct.frac < 1000
  }

  lemma SplitExact(frac: u64, elapsed: u32, hz: u32)
    requires frac < 1000 && hz <= 1000
    ensures var sum := Sum(frac, elapsed, hz);
      sum == frac + elapsed * hz && sum - 1000 * Whole(sum) < 1000
  {
    MulBound(elapsed, hz);
    var product := elapsed * hz;
    assert frac + product < 0x1_0000_0000_0000_0000 && (frac + product) / 1000 < WRAP;
  }

  lemma {:induction false} MulBound(a: nat, hz: nat)
    requires hz <= 1000
    ensures 0 <= a * hz <= 1000 * a
    decreases a
  {
    if a > 0 {
      MulBound(a - 1, hz);
      assert a * hz == (a - 1) * hz + hz;
    }
  }

  lemma TrackedExact(t: Track, s: Sample)
    requires Exact(t) && t.ct.pulseHz <= 1000
    ensures Exact(Tracked(t, s)) && Tracked(t, s).ct.pulseHz == t.ct.pulseHz
    ensures Tracked(t, s).ct.debounceMs == t.ct.debounceMs && Tracked(t, s).ct.initialized
  {
    hide Sum, Whole, Since;
    if t.ct.initialized {
      var elapsed := Since(s.at % WRAP, t.ct.lastService);
      SplitExact(t.ct.frac, elapsed, t.ct.pulseHz);
      Distribute(t.ct.pulseHz, t.counted, elapsed);
    }
  }

  lemma Distribute(hz: nat, a: nat, b: nat)
    ensures hz * (a + b) == hz * a + b * hz
  {
  }

  /** For up to 1000 Hz no call schedule loses or invents a pulse. */
  lemma {:induction false} RunExact(pulseHz: u32, debounceMs: u32, samples: seq<Sample>)
    requires pulseHz <= 1000
    ensures Exact(Run(Fresh(pulseHz, debounceMs), samples))
    ensures Run(Fresh(pulseHz, debounceMs), samples).ct.pulseHz == pulseHz
    ensures Run(Fresh(pulseHz, debounceMs), samples).ct.debounceMs == debounceMs
    decreases |samples|
  {
    hide Tracked;
    if samples != [] {
      RunExact(pulseHz, debounceMs, samples[..|samples| - 1]);
      TrackedExact(Run(Fresh(pulseHz, debounceMs), samples[..|samples| - 1]), samples[|samples| - 1]);
    }
  }

  /** Calls at one level, in time order, from `from` to `end`, less than a turn of the clock apart. */
  predicate SteadyCalls(samples: seq<Sample>, level: bool, from: nat, end: nat)
  {
    && from <= end < from + WRAP
    && (forall i :: 0 <= i < |samples| ==> samples[i].raw == level && from <= samples[i].at <= end)
    && (forall i, j :: 0 <= i < j < |samples| ==> samples[i].at <= samples[j].at)
  }

  /** Settled at a level, last called at `at`. */
  predicate Settled(t: Track, level: bool, at: nat)
  {
    && Exact(t) && t.ct.pulseHz <= 1000 && t.ct.initialized && t.ct.lastService == at % WRAP
    && t.ct.candidate == t.ct.stable == level
  }

  /** At a steady level it does not matter how often or when the sensor is called: any calls before the last
      one change neither the pulses in total nor the state. */
  lemma {:induction false} ScheduleIrrelevant(t: Track, samples: seq<Sample>, level: bool, from: nat, end: nat)
    requires Settled(t, level, from) && SteadyCalls(samples, level, from, end)
    ensures Tracked(Run(t, samples), Sample(level, end)) == Tracked(t, Sample(level, end))
    ensures Settled(Run(t, samples), level, if samples == [] then from else samples[|samples| - 1].at)
    decreases |samples|
  {
    hide Tracked, Exact;
    if samples != [] {
      var before, last := samples[..|samples| - 1], samples[|samples| - 1];
      ScheduleIrrelevant(t, before, level, from, end);
      var at := if before == [] then from else before[|before| - 1].at;
      assert before != [] ==> before[|before| - 1] == samples[|samples| - 2];
      SplitIrrelevant(Run(t, before), last.at, end, at);
      StaysSettled(Run(t, before), level, at, last.at);
    }
  }

  lemma StaysSettled(t: Track, level: bool, from: nat, at: nat)
    requires Settled(t, level, from)
    ensures Settled(Tracked(t, Sample(level, at)), level, at)
  {
    hide Sum, Whole, Since, Exact;
    TrackedExact(t, Sample(level, at));
  }

  /** The same for one call in between. */
  lemma SplitIrrelevant(t: Track, mid: nat, end: nat, lastAt: nat)
    requires Exact(t) && t.ct.pulseHz <= 1000 && t.ct.initialized
    requires t.ct.lastService == lastAt % WRAP && lastAt <= mid <= end < lastAt + WRAP
    requires t.ct.candidate == t.ct.stable
    ensures var level := t.ct.stable;
      Tracked(Tracked(t, Sample(level, mid)), Sample(level, end)) == Tracked(t, Sample(level, end))
  {
    var level := t.ct.stable;
    var a, b := Tracked(Tracked(t, Sample(level, mid)), Sample(level, end)), Tracked(t, Sample(level, end));
    ClockAdds(lastAt, mid, end);
    TrackedExact(t, Sample(level, mid));
    TrackedExact(Tracked(t, Sample(level, mid)), Sample(level, end));
    TrackedExact(t, Sample(level, end));
    assert a.counted == b.counted;
    SameSplit(a.emitted, a.ct.frac, b.emitted, b.ct.frac);
  }

  lemma ClockAdds(lastAt: nat, mid: nat, end: nat)
    requires lastAt <= mid <= end < lastAt + WRAP
    ensures Since(mid % WRAP, lastAt % WRAP) == mid - lastAt
    ensures Since(end % WRAP, mid % WRAP) == end - mid
    ensures Since(end % WRAP, lastAt % WRAP) == end - lastAt
  {
    ClockDiff(lastAt, mid);
    ClockDiff(mid, end);
    ClockDiff(lastAt, end);
  }

  lemma ClockDiff(a: nat, b: nat)
    requires a <= b < a + WRAP
    ensures Since(b % WRAP, a % WRAP) == b - a
  {
  }

  lemma SameSplit(e1: nat, f1: nat, e2: nat, f2: nat)
    requires 1000 * e1 + f1 == 1000 * e2 + f2 && f1 < 1000 && f2 < 1000
    ensures e1 == e2 && f1 == f2
  {
  }

  /** Samples at one level, in time order, each less than a turn of the clock after the one before. */
  predicate OneLevel(samples: seq<Sample>, level: bool)
  {
    && (forall i :: 0 <= i < |samples| ==> samples[i].raw == level)
    && (forall i :: 0 < i < |samples| ==> samples[i - 1].at <= samples[i].at < samples[i - 1].at + WRAP)
  }

  /** A sensor that is switched on and sees one level throughout adopts it at the first call: the time counted is
      all of it if the level is on, and none if it is off, so an idle clamp never emits a pulse. */
  lemma {:induction false} AdoptsFirstLevel(pulseHz: u32, debounceMs: u32, samples: seq<Sample>, level: bool)
    requires samples != [] && OneLevel(samples, level)
    ensures var t := Run(Fresh(pulseHz, debounceMs), samples);
      && t.ct.initialized && t.ct.stable == t.ct.candidate == level
      && t.ct.lastService == samples[|samples| - 1].at % WRAP
      && t.counted == (if level then samples[|samples| - 1].at - samples[0].at else 0)
      && (!level ==> t.emitted == 0 && t.ct.frac == 0)
    ensures pulseHz <= 1000 && level ==>
      var t := Run(Fresh(pulseHz, debounceMs), samples);
      1000 * t.emitted + t.ct.frac == pulseHz * (samples[|samples| - 1].at - samples[0].at) && t.ct.frac < 1000
    decreases |samples|
  {
    hide Sum, Whole;
    var init, last := samples[..|samples| - 1], samples[|samples| - 1];
    if init == [] {
      assert Run(Fresh(pulseHz, debounceMs), init) == Fresh(pulseHz, debounceMs);
    } else {
      var before := init[|init| - 1];
      assert before == samples[|samples| - 2] && init[0] == samples[0];
      AdoptsFirstLevel(pulseHz, debounceMs, init, level);
      ClockDiff(before.at, last.at);
    }
    if pulseHz <= 1000 {
      RunExact(pulseHz, debounceMs, samples);
    }
  }

  // --- debounce error ------------------------------------------------------------------------

  /** The sensor with true times alongside: the last call, the sample at which the candidate level was
      first seen, and for the current active spell the sample that began it and the time counted for it. */
  datatype Watch = Watch(ct: Ct, last: nat, since: nat, onAt: nat, spell: nat)

  function Watching(pulseHz: u32, debounceMs: u32, first: Sample): Watch
  {
    Watch(Serviced(Ct(pulseHz, debounceMs, false, false, false, 0, 0, 0), first.raw, first.at % WRAP).0,
          first.at, first.at, first.at, 0)
  }

  function Watched(w: Watch, s: Sample): Watch
    requires w.last <= s.at
  {
    var c := Serviced(w.ct, s.raw, s.at % WRAP).0;
    var since := if s.raw != w.ct.candidate then s.at else w.since;
    if !c.stable then Watch(c, s.at, since, w.onAt, w.spell)
    else if !w.ct.stable then Watch(c, s.at, since, since, s.at - w.last)
    else Watch(c, s.at, since, w.onAt, w.spell + (s.at - w.last))
  }

  /** Calls are made in time order and often enough for the 32-bit clock. */
  predicate Timely(debounceMs: nat, last: nat, at: nat)
  {
    last <= at && at - last + debounceMs < WRAP
  }

  predicate WatchOk(w: Watch)
  {
    && w.ct.initialized && w.ct.debounceMs > 0
    && w.ct.lastService == w.last % WRAP && w.ct.candidateSince == w.since % WRAP && w.since <= w.last
    && (w.ct.candidate != w.ct.stable ==> w.last - w.since < w.ct.debounceMs)
    && (w.ct.stable ==> w.onAt <= w.since && w.onAt + w.spell <= w.last < w.onAt + w.spell + w.ct.debounceMs)
  }

  lemma WatchedOk(w: Watch, s: Sample)
    requires WatchOk(w) && Timely(w.ct.debounceMs, w.last, s.at)
    ensures WatchOk(Watched(w, s)) && Watched(w, s).ct.debounceMs == w.ct.debounceMs
  {
    hide Sum, Whole;
    if w.ct.candidate != w.ct.stable {
      ClockDiff(w.since, s.at);
    }
    ClockDiff(s.at, s.at);
  }

  predicate TimelyRun(debounceMs: nat, samples: seq<Sample>)
  {
    forall i :: 0 < i < |samples| ==> Timely(debounceMs, samples[i - 1].at, samples[i].at)
  }

  function WatchRun(pulseHz: u32, debounceMs: u32, samples: seq<Sample>): (w: Watch)
    requires samples != [] && TimelyRun(debounceMs, samples)
    ensures w.last == samples[|samples| - 1].at
    decreases |samples|
  {
    if |samples| == 1 then Watching(pulseHz, debounceMs, samples[0])
    else Watched(WatchRun(pulseHz, debounceMs, samples[..|samples| - 1]), samples[|samples| - 1])
  }

  lemma {:induction false} WatchRunOk(pulseHz: u32, debounceMs: u32, samples: seq<Sample>)
    requires samples != [] && TimelyRun(debounceMs, samples) && debounceMs > 0
    ensures WatchOk(WatchRun(pulseHz, debounceMs, samples))
    ensures WatchRun(pulseHz, debounceMs, samples).ct.debounceMs == debounceMs
    decreases |samples|
  {
    if |samples| > 1 {
      WatchRunOk(pulseHz, debounceMs, samples[..|samples| - 1]);
      WatchedOk(WatchRun(pulseHz, debounceMs, samples[..|samples| - 1]), samples[|samples| - 1]);
    }
  }

  /** When the level of the last sample was first seen without interruption. */
  function HeldSince(samples: seq<Sample>): (at: nat)
    requires samples != []
    decreases |samples|
  {
    var n := |samples|;
    if n > 1 && samples[n - 2].raw == samples[n - 1].raw then HeldSince(samples[..n - 1]) else samples[n - 1].at
  }

  /** The debouncer's own view of that, for any debounce time. */
  predicate Holding(w: Watch, samples: seq<Sample>)
    requires samples != []
  {
    && w.ct.initialized && w.ct.candidate == samples[|samples| - 1].raw && w.since == HeldSince(samples)
    && w.ct.candidateSince == w.since % WRAP && w.since <= w.last
    && (w.ct.candidate != w.ct.stable ==> w.last - w.since < w.ct.debounceMs)
  }

  /** On every run the accepted level changes exactly when a sample shows the other one and every sample has
      shown it for at least the debounce time; anything shorter leaves it as it is. */
  lemma {:induction false} DebounceExactly(pulseHz: u32, debounceMs: u32, samples: seq<Sample>)
    requires |samples| > 1 && TimelyRun(debounceMs, samples)
    ensures var n := |samples| - 1;
      var before, after := WatchRun(pulseHz, debounceMs, samples[..n]), WatchRun(pulseHz, debounceMs, samples);
      after.ct.stable != before.ct.stable <==>
        samples[n].raw != before.ct.stable && samples[n].at - HeldSince(samples) >= debounceMs
  {
    hide Sum, Whole;
    var n := |samples| - 1;
    HoldingAlways(pulseHz, debounceMs, samples[..n]);
    HoldingNext(WatchRun(pulseHz, debounceMs, samples[..n]), samples);
  }

  lemma {:induction false} HoldingAlways(pulseHz: u32, debounceMs: u32, samples: seq<Sample>)
    requires samples != [] && TimelyRun(debounceMs, samples)
    ensures var w := WatchRun(pulseHz, debounceMs, samples); Holding(w, samples) && w.ct.debounceMs == debounceMs
    decreases |samples|
  {
    hide Sum, Whole, Holding;
    if |samples| == 1 {
      HoldingFirst(pulseHz, debounceMs, samples);
    } else {
      HoldingAlways(pulseHz, debounceMs, samples[..|samples| - 1]);
      HoldingNext(WatchRun(pulseHz, debounceMs, samples[..|samples| - 1]), samples);
    }
  }

  lemma HoldingFirst(pulseHz: u32, debounceMs: u32, samples: seq<Sample>)
    requires |samples| == 1
    ensures var w := Watching(pulseHz, debounceMs, samples[0]);
      Holding(w, samples) && w.ct.debounceMs == debounceMs
  {
  }

  lemma HoldingNext(w: Watch, samples: seq<Sample>)
    requires |samples| > 1 && Holding(w, samples[..|samples| - 1])
    requires Timely(w.ct.debounceMs, w.last, samples[|samples| - 1].at)
    ensures var s := samples[|samples| - 1];
      var w' := Watched(w, s);
      && Holding(w', samples) && w'.ct.debounceMs == w.ct.debounceMs
      && (w'.ct.stable != w.ct.stable <==> s.raw != w.ct.stable && s.at - HeldSince(samples) >= w.ct.debounceMs)
  {
    hide Sum, Whole;
    var s := samples[|samples| - 1];
    if w.ct.candidate != w.ct.stable {
      ClockDiff(w.since, s.at);
    }
    ClockDiff(s.at, s.at);
  }

  /** Two durations differ by less than `d`. */
  predicate Near(a: nat, b: nat, d: nat)
  {
    a < b + d && b < a + d
  }

  /** On every run, when an active spell ends the time counted for it and the time between the samples
      that began and ended it differ by less than the debounce time, either way. */
  lemma SpellErrorBounded(pulseHz: u32, debounceMs: u32, samples: seq<Sample>, next: Sample)
    requires samples != [] && TimelyRun(debounceMs, samples) && debounceMs > 0
    requires Timely(debounceMs, samples[|samples| - 1].at, next.at)
    ensures var w := WatchRun(pulseHz, debounceMs, samples);
      var w' := Watched(w, next);
      w.ct.stable && !w'.ct.stable ==>
        w'.since >= w.onAt && Near(w.spell, w'.since - w.onAt, debounceMs)
  {
    hide Sum, Whole;
    WatchRunOk(pulseHz, debounceMs, samples);
    var w := WatchRun(pulseHz, debounceMs, samples);
    if w.ct.candidate != w.ct.stable {
      ClockDiff(w.since, next.at);
    }
    ClockDiff(next.at, next.at);
  }

  /** The time of finished and current spells together is what the integrator counted. */
  lemma SpellCountsTime(w: Watch, t: Track, s: Sample)
    requires WatchOk(w) && Timely(w.ct.debounceMs, w.last, s.at) && t.ct == w.ct
    ensures Tracked(t, s).ct == Watched(w, s).ct
    ensures Tracked(t, s).counted - t.counted == (if Watched(w, s).ct.stable then s.at - w.last else 0)
  {
    hide Sum, Whole;
    ClockDiff(w.last, s.at);
  }
}
