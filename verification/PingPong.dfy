/** The two-slot scheme behind every record that must survive a power cut: writes alternate
    between two slots, recovery takes the readable slot with the larger write counter. */
module PingPong {
  import opened Bytes
  import opened Records

  /** What each slot reads back as; None when it is absent, torn or corrupt. */
  datatype Pair<+T> = Pair(a: Option<Rec<T>>, b: Option<Rec<T>>)

  predicate UsesA(writes: u32)
  {
    writes % 2 == 1
  }

  function Newest<T>(p: Pair<T>, zero: T): Rec<T>
  {
    if p.a.Some? && p.b.Some? then (if p.a.value.writes >= p.b.value.writes then p.a.value else p.b.value)
    else if p.a.Some? then p.a.value
    else if p.b.Some? then p.b.value
    else Rec(0, zero)
  }

  function Put<T>(p: Pair<T>, r: Rec<T>): Pair<T>
  {
    if UsesA(r.writes) then p.(a := Some(r)) else p.(b := Some(r))
  }

  /** The slot that a record with this counter goes to, ruined by a cut in the middle of the write. */
  function Tear<T>(p: Pair<T>, writes: u32): Pair<T>
  {
    if UsesA(writes) then p.(a := None) else p.(b := None)
  }

  function Next<T>(cur: Rec<T>, body: T): Rec<T>
  {
    Rec(Inc32(cur.writes), body)
  }

  /** All that a slot write may leave behind: only a power cut can leave anything but the record. */
  predicate Persisted<T(==)>(p: Pair<T>, r: Rec<T>, p': Pair<T>, on: bool)
  {
    p' == Put(p, r) || (!on && (p' == p || p' == Tear(p, r.writes)))
  }

  /** `cur` sits in the slot its counter selects and the other slot is older or unreadable. */
  predicate Sound<T(==)>(p: Pair<T>, cur: Rec<T>, zero: T)
  {
    var (mine, other) := if UsesA(cur.writes) then (p.a, p.b) else (p.b, p.a);
    || (p == Pair(None, None) && cur == Rec(0, zero))
    || (mine == Some(cur) && (other.Some? ==> other.value.writes < cur.writes))
  }

  lemma SoundRecovers<T>(p: Pair<T>, cur: Rec<T>, zero: T)
    requires Sound(p, cur, zero)
    ensures Newest(p, zero) == cur
  {
  }

  /** Whatever a write does, recovery yields the record being written or the one before it, and the
      scheme stays sound: the slot written next was never the only readable one. */
  lemma PersistSound<T>(p: Pair<T>, cur: Rec<T>, r: Rec<T>, p': Pair<T>, on: bool, zero: T)
    requires Sound(p, cur, zero) && cur.writes < U32_MAX && r.writes == Inc32(cur.writes)
    requires Persisted(p, r, p', on)
    ensures p' == Put(p, r) ==> Sound(p', r, zero) && Newest(p', zero) == r
    ensures p' != Put(p, r) ==> Sound(p', cur, zero) && Newest(p', zero) == cur
    ensures on ==> p' == Put(p, r)
  {
  }

  /** The first record ever written, with counter 1, goes to slot A, the next to slot B. */
  lemma SlotsAlternate<T>(body: T, next: T, zero: T)
    ensures var first := Next(Rec(0, zero), body);
      var p := Put(Pair(None, None), first);
      && first.writes == 1 && p == Pair(Some(first), None)
      && Put(p, Next(first, next)) == Pair(Some(first), Some(Rec(2, next)))
  {
  }

  /** The promise holds up to the wrap of the write counter and fails exactly there. */
  lemma RecoversUntilWrap<T>(p: Pair<T>, cur: Rec<T>, body: T, zero: T)
    requires Sound(p, cur, zero)
    ensures Newest(Put(p, Next(cur, body)), zero) == Next(cur, body) <==> cur.writes != U32_MAX
  {
    assert U32_MAX % 2 == 1;
  }

  /** A write that fails without a cut breaks the scheme: the next write goes to the slot holding the
      last good record, so a cut there loses it. */
  lemma SilentFailureThenCutLoses<T>(p: Pair<T>, cur: Rec<T>, skipped: T, zero: T)
    requires Sound(p, cur, zero) && 0 < cur.writes < U32_MAX - 1
    ensures var after := Tear(p, Next(Next(cur, skipped), skipped).writes);
      Newest(after, zero) != cur
  {
  }

  // --- whole runs ------------------------------------------------------------------

  datatype WriteEvent<T> =
    | Complete(body: T)     // the write finished
    | CutAfter(body: T)     // the write finished, then power was lost
    | CutDuring(body: T)    // power was lost inside the write
    | CutBefore(body: T)    // power was lost before anything was written

  datatype State<T> = State(slots: Pair<T>, ram: Rec<T>)

  function Reboot<T>(slots: Pair<T>, zero: T): State<T>
  {
    State(slots, Newest(slots, zero))
  }

  function StepEvent<T>(s: State<T>, e: WriteEvent<T>, zero: T): State<T>
  {
    var r := Next(s.ram, e.body);
    match e
    case Complete(_) => State(Put(s.slots, r), r)
    case CutAfter(_) => Reboot(Put(s.slots, r), zero)
    case CutDuring(_) => Reboot(Tear(s.slots, r.writes), zero)
    case CutBefore(_) => Reboot(s.slots, zero)
  }

  function Run<T>(s: State<T>, events: seq<WriteEvent<T>>, zero: T): State<T>
    decreases |events|
  {
    if events == [] then s
    else StepEvent(Run(s, events[..|events| - 1], zero), events[|events| - 1], zero)
  }

  /** The last record whose write finished, the one before the run if there is none. */
  function LastFinished<T>(before: T, events: seq<WriteEvent<T>>): T
    decreases |events|
  {
    if events == [] then before
    else
      var e := events[|events| - 1];
      if e.Complete? || e.CutAfter? then e.body else LastFinished(before, events[..|events| - 1])
  }

  /** Over any number of writes below the wrap, and any cuts, recovery yields the last finished record. */
  lemma {:induction false} RunRecoversLastFinished<T>(s: State<T>, events: seq<WriteEvent<T>>, zero: T)
    requires Sound(s.slots, s.ram, zero) && s.ram.writes + |events| <= U32_MAX
    ensures var t := Run(s, events, zero);
      && Sound(t.slots, t.ram, zero) && t.ram.writes <= s.ram.writes + |events|
      && Newest(t.slots, zero) == t.ram && t.ram.body == LastFinished(s.ram.body, events)
    decreases |events|
  {
    if events == [] {
      SoundRecovers(s.slots, s.ram, zero);
    } else {
      var init, e := events[..|events| - 1], events[|events| - 1];
      RunRecoversLastFinished(s, init, zero);
      var m := Run(s, init, zero);
      var r := Next(m.ram, e.body);
      PersistSound(m.slots, m.ram, r, StepEvent(m, e, zero).slots, false, zero);
    }
  }
}
