/** The system monitor: registered activities have to check in within a permitted delay, in 32-bit milliseconds; a sweep
    that finds one late hangs, so that the watchdog is never reloaded again. */
module SystemMonitor {
  import opened Tables

  type uint32 = x: nat | x < 0x1_0000_0000

  const MAXIMUM_NUMBER_OF_SYSTEM_MONITORS: nat := 5
  const PERIOD: nat := 2000
  const WATCHDOG: nat := PERIOD + 1000

  /** mico_system_monitor_t */
  datatype Item = Item(lastUpdate: uint32, longestPermittedDelay: uint32)

  /** The value of the millisecond counter at a time. */
  function Clock(now: nat): uint32 {
    now % 0x1_0000_0000
  }

  /** Unsigned subtraction. */
  function Since(clock: uint32, last: uint32): uint32 {
    (clock - last) % 0x1_0000_0000
  }

  predicate Late(now: nat, item: Item) {
    Since(Clock(now), item.lastUpdate) > item.longestPermittedDelay
  }

  function CheckIn(now: nat, item: Item, delay: uint32): Item {
    if Late(now, item) then item else Item(Clock(now), delay)
  }

  /** `seen` is bookkeeping: the time at which an item really checked in last.  `reloaded` is when the watchdog was. */
  datatype State<M> = State(
    now: nat, slots: seq<Option<M>>, items: map<M, Item>, seen: map<M, nat>, tripped: bool, reloaded: nat)

  datatype Event<M> = Tick(ms: nat) | Register(m: M, delay: uint32) | Update(m: M, delay: uint32) | Sweep

  function OnRegister<M(==)>(s: State<M>, m: M, delay: uint32): State<M> {
    var i := FirstFree(s.slots);
    if i == |s.slots| then s
    else
      s.(slots := s.slots[i := Some(m)], items := s.items[m := Item(Clock(s.now), delay)], seen := s.seen[m := s.now])
  }

  function OnUpdate<M(==)>(s: State<M>, m: M, delay: uint32): State<M> {
    if m !in s.items || Late(s.now, s.items[m]) then s
    else s.(items := s.items[m := CheckIn(s.now, s.items[m], delay)], seen := s.seen[m := s.now])
  }

  predicate LateSlot<M(==)>(s: State<M>, i: nat)
    requires i < |s.slots|
  {
    s.slots[i].Some? && s.slots[i].value in s.items && Late(s.now, s.items[s.slots[i].value])
  }

  predicate AnyLate<M(==)>(s: State<M>) {
    exists i :: 0 <= i < |s.slots| && LateSlot(s, i)
  }

  function OnSweep<M(==)>(s: State<M>): State<M> {
    if s.tripped then s else if AnyLate(s) then s.(tripped := true) else s.(reloaded := s.now)
  }

  function Step<M(==)>(s: State<M>, e: Event<M>): State<M> {
    match e
    case Tick(ms) => s.(now := s.now + ms)
    case Register(m, delay) => OnRegister(s, m, delay)
    case Update(m, delay) => OnUpdate(s, m, delay)
    case Sweep => OnSweep(s)
  }

  function Run<M(==)>(s: State<M>, events: seq<Event<M>>): State<M>
    decreases |events|
  {
    if events == [] then s else Run(Step(s, events[0]), events[1..])
  }

  // ---------------------------------------------------------------- clocks that wrap

  /** For less than a turn of the counter its difference is the elapsed time. */
  lemma SinceIsElapsed(seen: nat, now: nat)
    requires seen <= now
    ensures Since(Clock(now), Clock(seen)) == (now - seen) % 0x1_0000_0000
    ensures now - seen < 0x1_0000_0000 ==> Since(Clock(now), Clock(seen)) == now - seen
  {
    var a, b := now / 0x1_0000_0000, seen / 0x1_0000_0000;
    assert Clock(now) - Clock(seen) == now - seen - 0x1_0000_0000 * (a - b);
    ShiftTurns(now - seen, a - b);
  }

  lemma ShiftTurns(n: int, turns: int)
    ensures (n - 0x1_0000_0000 * turns) % 0x1_0000_0000 == n % 0x1_0000_0000
  {
    var q, r := n / 0x1_0000_0000, n % 0x1_0000_0000;
    assert n - 0x1_0000_0000 * turns == 0x1_0000_0000 * (q - turns) + r;
  }

  ghost predicate Tracked<M>(s: State<M>) {
    && s.reloaded <= s.now
    && (forall m :: m in s.items ==> m in s.seen && s.seen[m] <= s.now && s.items[m].lastUpdate == Clock(s.seen[m]))
    && (forall i :: 0 <= i < |s.slots| && s.slots[i].Some? ==> s.slots[i].value in s.items)
  }

  lemma StepKeepsTracked<M>(s: State<M>, e: Event<M>)
    requires Tracked(s)
    ensures Tracked(Step(s, e))
  {}

  /** How long a registered activity has been silent. */
  function Silence<M>(s: State<M>, m: M): int
    requires m in s.seen
  {
    s.now - s.seen[m]
  }

  ghost predicate Missed<M>(s: State<M>, m: M) {
    m in s.items && m in s.seen && Silence(s, m) > s.items[m].longestPermittedDelay
  }

  /** Within a turn of the counter, late is late. */
  lemma LateIsMissed<M>(s: State<M>, m: M)
    requires Tracked(s) && m in s.items && Silence(s, m) < 0x1_0000_0000
    ensures Late(s.now, s.items[m]) <==> Missed(s, m)
  {
    SinceIsElapsed(s.seen[m], s.now);
  }

  // ---------------------------------------------------------------- a missed deadline

  /** After a sweep has tripped the watchdog is never reloaded again. */
  lemma {:induction false} NeverReloaded<M>(s: State<M>, events: seq<Event<M>>)
    requires s.tripped
    ensures Run(s, events).tripped && Run(s, events).reloaded == s.reloaded
    decreases |events|
  {
    if events != [] {
      NeverReloaded(Step(s, events[0]), events[1..]);
    }
  }

  /** Time does not run backwards. */
  lemma {:induction false} TimePasses<M>(s: State<M>, events: seq<Event<M>>)
    ensures s.now <= Run(s, events).now
    decreases |events|
  {
    if events != [] {
      TimePasses(Step(s, events[0]), events[1..]);
    }
  }

  predicate Reregisters<M(==)>(e: Event<M>, m: M) {
    e.Register? && e.m == m
  }

  /** Check-ins of a late activity have no effect, nor have those of others. */
  lemma MissedStep<M>(s: State<M>, e: Event<M>, m: M)
    requires Tracked(s) && Missed(s, m) && Some(m) in s.slots && !Reregisters(e, m) && Silence(s, m) < 0x1_0000_0000
    ensures var t := Step(s, e);
            && Tracked(t) && Missed(t, m) && Some(m) in t.slots && t.seen[m] == s.seen[m] && t.items[m] == s.items[m]
            && (e.Sweep? || s.tripped ==> t.tripped) && t.reloaded == s.reloaded
  {
    StepKeepsTracked(s, e);
    LateIsMissed(s, m);
    var i :| 0 <= i < |s.slots| && s.slots[i] == Some(m);
    assert LateSlot(s, i);
    if e.Register? {
      RegisterKeepsSlots(s, e.m, e.delay, i);
    }
  }

  lemma RegisterKeepsSlots<M>(s: State<M>, m: M, delay: uint32, i: nat)
    requires i < |s.slots| && s.slots[i].Some?
    ensures |OnRegister(s, m, delay).slots| == |s.slots| && OnRegister(s, m, delay).slots[i] == s.slots[i]
  {}

  /** An activity that has missed its deadline stays late, whatever check-ins follow; the watchdog is not reloaded any
      more, and the next sweep trips.  This holds across wrap-around of the counter, for less than one turn of
      silence. */
  lemma {:induction false} MissedIsFatal<M>(s: State<M>, events: seq<Event<M>>, m: M)
    requires Tracked(s) && Missed(s, m) && Some(m) in s.slots
    requires forall k :: 0 <= k < |events| ==> !Reregisters(events[k], m)
    requires Run(s, events).now - s.seen[m] < 0x1_0000_0000
    ensures var t := Run(s, events);
            && Missed(t, m) && t.reloaded == s.reloaded
            && ((exists k :: 0 <= k < |events| && events[k].Sweep?) || s.tripped ==> t.tripped)
    decreases |events|
  {
    if events != [] {
      TimePasses(s, events);
      MissedStep(s, events[0], m);
      MissedIsFatal(Step(s, events[0]), events[1..], m);
      forall k | 0 <= k < |events| && events[k].Sweep?
        ensures Run(s, events).tripped
      {
        if k > 0 {
          assert events[1..][k - 1].Sweep?;
        }
      }
    }
  }

  // ---------------------------------------------------------------- checking in on time

  /** At every sweep of a run, every registered activity has checked in within its permitted delay. */
  ghost predicate OnTime<M>(s: State<M>, events: seq<Event<M>>)
    decreases |events|
  {
    events == [] ||
    ((events[0].Sweep? ==> forall i :: 0 <= i < |s.slots| && s.slots[i].Some? ==> !Missed(s, s.slots[i].value))
     && OnTime(Step(s, events[0]), events[1..]))
  }

  /** If everybody checks in on time no sweep trips, however often the counter wraps. */
  lemma {:induction false} OnTimeNeverTrips<M>(s: State<M>, events: seq<Event<M>>)
    requires Tracked(s) && !s.tripped && OnTime(s, events)
    ensures !Run(s, events).tripped
    decreases |events|
  {
    if events != [] {
      StepKeepsTracked(s, events[0]);
      if events[0].Sweep? {
        forall i | 0 <= i < |s.slots|
          ensures !LateSlot(s, i)
        {
          if s.slots[i].Some? {
            LateIsMissed(s, s.slots[i].value);
          }
        }
      }
      OnTimeNeverTrips(Step(s, events[0]), events[1..]);
    }
  }

  // ---------------------------------------------------------------- sweeps in regular intervals

  /** How the monitor thread spends its time until it hangs: it sweeps, then sleeps for no more than a period.  `slept`
      is how long the current sleep has lasted. */
  ghost predicate Paced<M>(s: State<M>, period: nat, slept: nat, events: seq<Event<M>>)
    decreases |events|
  {
    s.tripped ||
    (slept <= period && (events == [] || Paced(Step(s, events[0]), period, Asleep(slept, events[0]), events[1..])))
  }

  function Asleep<M>(slept: nat, e: Event<M>): nat {
    match e
    case Tick(ms) => slept + ms
    case Sweep => 0
    case _ => slept
  }

  predicate DelayBelow<M(==)>(e: Event<M>, bound: nat) {
    (e.Register? || e.Update?) ==> e.delay < bound
  }

  /** At the last sweep everybody was on time. */
  ghost predicate Supervised<M>(s: State<M>, bound: nat) {
    && Tracked(s)
    && (forall m :: m in s.items ==> s.items[m].longestPermittedDelay < bound)
    && (!s.tripped ==> forall i :: 0 <= i < |s.slots| && s.slots[i].Some? ==>
          s.reloaded - s.seen[s.slots[i].value] <= s.items[s.slots[i].value].longestPermittedDelay)
  }

  lemma StepKeepsSupervised<M>(s: State<M>, e: Event<M>, period: nat, bound: nat)
    requires Supervised(s, bound) && DelayBelow(e, bound) && bound + period <= 0x1_0000_0000
    requires s.tripped || s.now - s.reloaded <= period
    ensures Supervised(Step(s, e), bound)
  {
    StepKeepsTracked(s, e);
    if e.Sweep? && !s.tripped && !AnyLate(s) {
      forall i | 0 <= i < |s.slots| && s.slots[i].Some?
        ensures s.now - s.seen[s.slots[i].value] <= s.items[s.slots[i].value].longestPermittedDelay
      {
        assert !LateSlot(s, i);
        LateIsMissed(s, s.slots[i].value);
      }
    }
  }

  /** A sweep that does not hang reloads the watchdog, so that the time since then is the time slept. */
  lemma StepSleeps<M>(s: State<M>, e: Event<M>, slept: nat)
    requires Tracked(s) && (s.tripped || s.now - s.reloaded == slept)
    ensures var t := Step(s, e); t.tripped || t.now - t.reloaded == Asleep(slept, e)
  {}

  /** Over every run in which the monitor thread sweeps and then sleeps for no more than a period, as long as it has not
      hung: no registered activity has been silent for longer than its permitted delay and one period, so that a
      deadline missed by more than that has always been noticed; and the watchdog was reloaded no longer than a period
      ago. */
  lemma {:induction false} NoticedWithinAPeriod<M>(
    s: State<M>, events: seq<Event<M>>, period: nat, slept: nat, bound: nat)
    requires Supervised(s, bound) && bound + period <= 0x1_0000_0000
    requires (s.tripped || s.now - s.reloaded == slept) && Paced(s, period, slept, events)
    requires forall k :: 0 <= k < |events| ==> DelayBelow(events[k], bound)
    ensures var t := Run(s, events);
            && Supervised(t, bound)
            && (!t.tripped ==> forall i :: 0 <= i < |t.slots| && t.slots[i].Some? ==>
                  Silence(t, t.slots[i].value) <= t.items[t.slots[i].value].longestPermittedDelay + period)
            && (!t.tripped ==> t.now - t.reloaded <= period)
    decreases |events|
  {
    if events != [] {
      StepKeepsSupervised(s, events[0], period, bound);
      StepSleeps(s, events[0], slept);
      NoticedWithinAPeriod(Step(s, events[0]), events[1..], period, Asleep(slept, events[0]), bound);
    }
  }

  /** With the period of the original the watchdog does not bite while the monitor has not hung. */
  lemma WatchdogHeld<M>(s: State<M>, events: seq<Event<M>>, bound: nat)
    requires Supervised(s, bound) && !s.tripped && s.now == s.reloaded && bound + 2000 <= 0x1_0000_0000
    requires Paced(s, 2000, 0, events) && forall k :: 0 <= k < |events| ==> DelayBelow(events[k], bound)
    ensures var t := Run(s, events); !t.tripped ==> t.now - t.reloaded < WATCHDOG == 3000
  {
    NoticedWithinAPeriod(s, events, PERIOD, 0, bound);
  }

  /** How large a delay may be: of two sweeps one period apart, the first before and the second after the deadline, the
      second is sure to find the activity late if and only if delay and period together are less than a turn. */
  lemma SureToBeNoticed(seen: nat, delay: uint32, period: nat)
    requires 0 < period <= 0x1_0000_0000
    ensures (forall e: nat :: NoticedAfter(seen, delay, period, e)) <==> delay + period < 0x1_0000_0000
  {
    if delay + period < 0x1_0000_0000 {
      forall e: nat
        ensures NoticedAfter(seen, delay, period, e)
      {
        SinceIsElapsed(seen, seen + e + period);
      }
    } else {
      var e: nat := 0x1_0000_0000 - period;
      SinceIsElapsed(seen, seen + e + period);
      assert !NoticedAfter(seen, delay, period, e);
    }
  }

  predicate NoticedAfter(seen: nat, delay: uint32, period: nat, e: nat) {
    e <= delay < e + period ==> Late(seen + e + period, Item(Clock(seen), delay))
  }

  // ---------------------------------------------------------------- from the start

  /** MICOStartSystemMonitor leaves an empty table. */
  function Started<M>(now: nat): State<M> {
    State(now, [None, None, None, None, None], map[], map[], false, now)
  }

  /** The time after some events. */
  function TimeAfter<M>(start: nat, events: seq<Event<M>>): nat
    decreases |events|
  {
    if events == [] then start
    else
      var e := events[|events| - 1];
      TimeAfter(start, events[..|events| - 1]) + if e.Tick? then e.ms else 0
  }

  function Registrations<M>(events: seq<Event<M>>): nat
    decreases |events|
  {
    if events == [] then 0
    else Registrations(events[..|events| - 1]) + if events[|events| - 1].Register? then 1 else 0
  }

  /** What an activity was last granted: from when on, and for how long. */
  datatype Grant = Grant(time: nat, delay: nat)

  /** It is granted by the first five registrations and by every check-in that comes no later than the counter of 32
      bits can tell from a punctual one. */
  function Granted<M(==)>(start: nat, events: seq<Event<M>>, m: M): Option<Grant>
    decreases |events|
  {
    if events == [] then None
    else
      var front, e := events[..|events| - 1], events[|events| - 1];
      var now, last := TimeAfter(start, front), Granted(start, front, m);
      if e.Register? && e.m == m && Registrations(front) < 5 then Some(Grant(now, e.delay))
      else if e.Update? && e.m == m && last.Some? && (now - last.value.time) % 0x1_0000_0000 <= last.value.delay then
        Some(Grant(now, e.delay))
      else last
  }

  lemma {:induction false} RunLast<M>(s: State<M>, events: seq<Event<M>>)
    requires events != []
    ensures Run(s, events) == Step(Run(s, events[..|events| - 1]), events[|events| - 1])
    decreases |events|
  {
    var front := events[..|events| - 1];
    if front != [] {
      assert events[1..][..|events| - 2] == front[1..];
      RunLast(Step(s, events[0]), events[1..]);
    } else {
      assert events[1..] == [];
    }
  }

  /** What the monitor keeps of an activity is what it was last granted. */
  ghost predicate Keeps<M>(s: State<M>, m: M, last: Option<Grant>) {
    if last.None? then m !in s.items && Some(m) !in s.slots
    else
      && m in s.items && m in s.seen && Some(m) in s.slots
      && s.items[m].lastUpdate == last.value.time % 0x1_0000_0000 && s.seen[m] == last.value.time
      && s.items[m].longestPermittedDelay == last.value.delay
  }

  ghost predicate Filled<M>(slots: seq<Option<M>>, n: nat) {
    |slots| == 5 && forall i :: 0 <= i < 5 ==> (slots[i].Some? <==> i < n)
  }

  lemma StepKeepsGrant<M>(s: State<M>, e: Event<M>, n: nat, m: M, last: Option<Grant>)
    requires Tracked(s) && Filled(s.slots, n) && Keeps(s, m, last)
    ensures Keeps(Step(s, e), m,
                  if e.Register? && e.m == m && n < 5 then Some(Grant(s.now, e.delay))
                  else if e.Update? && e.m == m && last.Some?
                          && (s.now - last.value.time) % 0x1_0000_0000 <= last.value.delay then
                    Some(Grant(s.now, e.delay))
                  else last)
  {
    if e.Register? {
      FirstFreeIs(s.slots, if n < 5 then n else 5);
      if last.Some? {
        var i :| 0 <= i < 5 && s.slots[i] == Some(m);
        RegisterKeepsSlots(s, e.m, e.delay, i);
      }
      if n < 5 {
        assert OnRegister(s, e.m, e.delay).slots[n] == Some(e.m);
      }
    } else if e.Update? && e.m == m && last.Some? {
      SinceIsElapsed(s.seen[m], s.now);
    }
  }

  lemma StepFills<M>(s: State<M>, e: Event<M>, n: nat)
    requires Filled(s.slots, n)
    ensures Filled(Step(s, e).slots, if e.Register? then n + 1 else n)
  {
    if e.Register? {
      FirstFreeIs(s.slots, if n < 5 then n else 5);
    }
  }

  lemma {:induction false} TableKept<M>(start: nat, events: seq<Event<M>>)
    ensures var s := Run(Started<M>(start), events);
            Tracked(s) && s.now == TimeAfter(start, events) && Filled(s.slots, Registrations(events))
    decreases |events|
  {
    if events != [] {
      var front, e := events[..|events| - 1], events[|events| - 1];
      TableKept(start, front);
      RunLast(Started<M>(start), events);
      var s := Run(Started<M>(start), front);
      StepKeepsTracked(s, e);
      StepFills(s, e, Registrations(front));
    }
  }

  /** Over every run the monitor's table and both fields of every item are what the calls of the activities and the
      times of these calls make them. */
  lemma {:induction false} KeepsWhatWasGranted<M>(start: nat, events: seq<Event<M>>, m: M)
    ensures Keeps(Run(Started<M>(start), events), m, Granted(start, events, m))
    decreases |events|
  {
    if events != [] {
      var front, e := events[..|events| - 1], events[|events| - 1];
      KeepsWhatWasGranted(start, front, m);
      TableKept(start, front);
      RunLast(Started<M>(start), events);
      StepKeepsGrant(Run(Started<M>(start), front), e, Registrations(front), m, Granted(start, front, m));
    }
  }

  /** The counter says that `m` has exceeded the delay it was last granted. */
  predicate Exceeded<M(==)>(start: nat, events: seq<Event<M>>, m: M) {
    var last := Granted(start, events, m);
    last.Some? && (TimeAfter(start, events) - last.value.time) % 0x1_0000_0000 > last.value.delay
  }

  predicate TripsAt<M(==)>(start: nat, events: seq<Event<M>>, k: nat, m: M) {
    k < |events| && events[k].Sweep? && Exceeded(start, events[..k], m)
  }

  /** The device hangs if and only if that is so at a sweep. */
  lemma {:induction false} TripsExactly<M>(start: nat, events: seq<Event<M>>)
    ensures Run(Started<M>(start), events).tripped <==> exists k: nat, m: M :: TripsAt(start, events, k, m)
    decreases |events|
  {
    if events != [] {
      var front, e := events[..|events| - 1], events[|events| - 1];
      TripsExactly(start, front);
      RunLast(Started<M>(start), events);
      OneMore(start, events);
      FoundLate(start, front);
    }
  }

  lemma OneMore<M>(start: nat, events: seq<Event<M>>)
    requires events != []
    ensures var front, e := events[..|events| - 1], events[|events| - 1];
            (exists k: nat, m: M :: TripsAt(start, events, k, m))
            <==> (exists k: nat, m: M :: TripsAt(start, front, k, m))
                 || (e.Sweep? && exists m: M :: Exceeded(start, front, m))
  {
    var front, n := events[..|events| - 1], |events| - 1;
    if k: nat, m: M :| TripsAt(start, front, k, m) {
      assert front[..k] == events[..k];
      assert TripsAt(start, events, k, m);
    }
    if m: M :| Exceeded(start, front, m) && events[n].Sweep? {
      assert TripsAt(start, events, n, m);
    }
    if k: nat, m: M :| TripsAt(start, events, k, m) && k < n {
      assert front[..k] == events[..k];
      assert TripsAt(start, front, k, m);
    }
  }

  /** What the thread finds by the items is what it should find by the calls. */
  lemma FoundLate<M>(start: nat, events: seq<Event<M>>)
    ensures AnyLate(Run(Started<M>(start), events)) <==> exists m: M :: Exceeded(start, events, m)
  {
    var s := Run(Started<M>(start), events);
    if i :| 0 <= i < |s.slots| && LateSlot(s, i) {
      var m := s.slots[i].value;
      assert s.slots[i] == Some(m);
      LateAsGranted(start, events, m);
      assert Exceeded(start, events, m);
    }
    if m: M :| Exceeded(start, events, m) {
      LateAsGranted(start, events, m);
      var i :| 0 <= i < |s.slots| && s.slots[i] == Some(m);
      assert LateSlot(s, i);
    }
  }

  lemma LateAsGranted<M>(start: nat, events: seq<Event<M>>, m: M)
    ensures var s := Run(Started<M>(start), events);
            && (Some(m) in s.slots ==> m in s.items)
            && (Exceeded(start, events, m) <==> m in s.items && Late(s.now, s.items[m]))
            && (m in s.items ==> Some(m) in s.slots)
  {
    KeepsWhatWasGranted(start, events, m);
    TableKept(start, events);
    var s := Run(Started<M>(start), events);
    if m in s.items {
      SinceIsElapsed(s.seen[m], s.now);
    }
  }

  /** An activity has been silent for longer than it was granted. */
  predicate Overdue<M(==)>(start: nat, events: seq<Event<M>>, m: M) {
    var last := Granted(start, events, m);
    last.Some? && TimeAfter(start, events) - last.value.time > last.value.delay
  }

  /** If nobody is overdue at a sweep, no sweep trips, however often the counter wraps. */
  lemma PunctualNeverTrips<M>(start: nat, events: seq<Event<M>>)
    requires forall k: nat, m: M :: k < |events| && events[k].Sweep? ==> !Overdue(start, events[..k], m)
    ensures !Run(Started<M>(start), events).tripped
  {
    TripsExactly(start, events);
    if k: nat, m: M :| TripsAt(start, events, k, m) {
      ExceededIsOverdue(start, events[..k], m);
    }
  }

  lemma ExceededIsOverdue<M>(start: nat, events: seq<Event<M>>, m: M)
    requires Exceeded(start, events, m)
    ensures Overdue(start, events, m)
  {
    KeepsWhatWasGranted(start, events, m);
    TableKept(start, events);
    Remainder(TimeAfter(start, events) - Granted(start, events, m).value.time);
  }

  lemma Remainder(n: nat)
    ensures n % 0x1_0000_0000 <= n
  {}

  lemma {:induction false} RunConcat<M>(s: State<M>, a: seq<Event<M>>, b: seq<Event<M>>)
    ensures Run(s, a + b) == Run(Run(s, a), b)
    decreases |a|
  {
    if a == [] {
      assert a + b == b;
    } else {
      assert (a + b)[1..] == a[1..] + b;
      RunConcat(Step(s, a[0]), a[1..], b);
    }
  }

  /** Who is overdue stays so unless registered anew, the watchdog is not reloaded any more, and the next sweep trips:
      for as long as the silence is shorter than a turn of the counter. */
  lemma OverdueIsFatal<M>(start: nat, events: seq<Event<M>>, later: seq<Event<M>>, m: M)
    requires Overdue(start, events, m) && forall k :: 0 <= k < |later| ==> !Reregisters(later[k], m)
    requires TimeAfter(start, events + later) - Granted(start, events, m).value.time < 0x1_0000_0000
    ensures Overdue(start, events + later, m)
    ensures var s, t := Run(Started<M>(start), events), Run(Started<M>(start), events + later);
            t.reloaded == s.reloaded && ((exists k :: 0 <= k < |later| && later[k].Sweep?) ==> t.tripped)
  {
    KeepsWhatWasGranted(start, events, m);
    KeepsWhatWasGranted(start, events + later, m);
    TableKept(start, events);
    TableKept(start, events + later);
    RunConcat(Started<M>(start), events, later);
    MissedIsFatal(Run(Started<M>(start), events), later, m);
  }

  /** Over every run in which the monitor thread, from its start, sweeps and then sleeps for no more than a period: as
      long as it has not hung, nobody has been silent for longer than granted and one period. */
  lemma SilenceBounded<M>(start: nat, events: seq<Event<M>>, period: nat, bound: nat, m: M)
    requires bound + period <= 0x1_0000_0000 && Paced(Started<M>(start), period, 0, events)
    requires forall k :: 0 <= k < |events| ==> DelayBelow(events[k], bound)
    ensures var last := Granted(start, events, m);
            !Run(Started<M>(start), events).tripped && last.Some? ==>
              TimeAfter(start, events) - last.value.time <= last.value.delay + period
  {
    KeepsWhatWasGranted(start, events, m);
    TableKept(start, events);
    NoticedWithinAPeriod(Started<M>(start), events, period, 0, bound);
  }

  // ---------------------------------------------------------------- the objects

  /** A monitor item, owned by the activity that it watches. */
  class Monitor {
    var lastUpdate: uint32
    var longestPermittedDelay: uint32

    ghost function View(): Item
      reads this
    {
      Item(lastUpdate, longestPermittedDelay)
    }

    constructor ()
      ensures View() == Item(0, 0)
    {
      lastUpdate, longestPermittedDelay := 0, 0;
    }
  }

  /** The table of registered monitor items, and the watchdog. */
  class Supervisor {
    const systemMonitors: array<Monitor?>
    var tripped: bool
    ghost var known: set<Monitor>
    ghost var seen: map<Monitor, nat>
    ghost var reloaded: nat

    ghost predicate Valid()
      reads this, systemMonitors
    {
      && systemMonitors.Length == MAXIMUM_NUMBER_OF_SYSTEM_MONITORS
      && forall i :: 0 <= i < systemMonitors.Length && systemMonitors[i] != null ==> systemMonitors[i] in known
    }

    ghost function Slot(i: nat): Option<Monitor>
      requires i < systemMonitors.Length
      reads systemMonitors
    {
      var m := systemMonitors[i];
      if m == null then None else Some(m as Monitor)
    }

    ghost function Slots(): (r: seq<Option<Monitor>>)
      reads systemMonitors
    {
      seq(systemMonitors.Length, i requires 0 <= i < systemMonitors.Length reads systemMonitors => Slot(i))
    }

    ghost function Items(): map<Monitor, Item>
      reads this, known
    {
      map m | m in known :: m.View()
    }

    ghost function View(now: nat): State<Monitor>
      reads this, systemMonitors, known
    {
      State(now, Slots(), Items(), seen, tripped, reloaded)
    }

    /** MICOStartSystemMonitor */
    constructor (ghost now: nat)
      ensures Valid() && fresh(systemMonitors)
      ensures View(now) == State(now, [None, None, None, None, None], map[], map[], false, now)
    {
      systemMonitors := new Monitor?[MAXIMUM_NUMBER_OF_SYSTEM_MONITORS](_ => null);
      tripped, known, seen, reloaded := false, {}, map[], now;
    }

    /** mico_system_monitor_register */
    method RegisterMonitor(systemMonitor: Monitor, initialPermittedDelay: uint32, now: nat) returns (ok: bool)
      requires Valid()
      modifies this, systemMonitors, systemMonitor
      ensures Valid() && View(now) == OnRegister(old(View(now)), systemMonitor, initialPermittedDelay)
      ensures ok == (None in old(Slots()))
      ensures if ok then systemMonitor.lastUpdate == now % 0x1_0000_0000
                         && systemMonitor.longestPermittedDelay == initialPermittedDelay
                         && exists i ::
                              && 0 <= i < 5 && old(systemMonitors[i]) == null && systemMonitors[i] == systemMonitor
                              && forall j :: 0 <= j < 5 && j != i ==> systemMonitors[j] == old(systemMonitors[j])
              else systemMonitor.View() == old(systemMonitor.View()) && systemMonitors[..] == old(systemMonitors[..])
    {
      var a := 0;
      ghost var slots, items := Slots(), Items();
      while a < MAXIMUM_NUMBER_OF_SYSTEM_MONITORS && systemMonitors[a] != null
        invariant 0 <= a <= MAXIMUM_NUMBER_OF_SYSTEM_MONITORS
        invariant forall j :: 0 <= j < a ==> systemMonitors[j] != null
      {
        a := a + 1;
      }
      FirstFreeIs(slots, a);
      if a == MAXIMUM_NUMBER_OF_SYSTEM_MONITORS {
        return false;
      }
      assert slots[a] == None;
      systemMonitor.lastUpdate := Clock(now);
      systemMonitor.longestPermittedDelay := initialPermittedDelay;
      systemMonitors[a] := systemMonitor;
      known, seen := known + {systemMonitor}, seen[systemMonitor := now];
      assert Slots() == slots[a := Some(systemMonitor)];
      assert Items() == items[systemMonitor := Item(Clock(now), initialPermittedDelay)];
      ok := true;
    }

    /** mico_system_monitor_update; an item that is in no slot is updated too, but that is of no consequence. */
    method UpdateMonitor(systemMonitor: Monitor, permittedDelay: uint32, now: nat)
      requires Valid()
      modifies this`seen, systemMonitor
      ensures Valid() && View(now) == OnUpdate(old(View(now)), systemMonitor, permittedDelay)
      ensures if (now % 0x1_0000_0000 - old(systemMonitor.lastUpdate)) % 0x1_0000_0000
                 <= old(systemMonitor.longestPermittedDelay)
              then systemMonitor.lastUpdate == now % 0x1_0000_0000
                   && systemMonitor.longestPermittedDelay == permittedDelay
              else systemMonitor.lastUpdate == old(systemMonitor.lastUpdate)
                   && systemMonitor.longestPermittedDelay == old(systemMonitor.longestPermittedDelay)
    {
      ghost var items := Items();
      var currentTime := Clock(now);
      if Since(currentTime, systemMonitor.lastUpdate) <= systemMonitor.longestPermittedDelay {
        systemMonitor.lastUpdate := currentTime;
        systemMonitor.longestPermittedDelay := permittedDelay;
        if systemMonitor in known {
          seen := seen[systemMonitor := now];
          assert Items() == items[systemMonitor := Item(currentTime, permittedDelay)];
        }
      }
    }

    ghost predicate HasMissed(m: Monitor?, now: nat)
      reads m
    {
      m != null && (now % 0x1_0000_0000 - m.lastUpdate) % 0x1_0000_0000 > m.longestPermittedDelay
    }

    /** One turn of mico_system_monitor_thread_main; `tripped` stands for the endless loop. */
    method SweepMonitors(now: nat)
      requires Valid()
      modifies this`tripped, this`reloaded
      ensures Valid() && View(now) == OnSweep(old(View(now)))
      ensures tripped == (old(tripped) || exists i :: 0 <= i < 5 && HasMissed(systemMonitors[i], now))
      ensures reloaded == if tripped then old(reloaded) else now
    {
      ghost var s := View(now);
      if tripped {
        return;
      }
      var currentTime := Clock(now);
      var a := 0;
      while a < MAXIMUM_NUMBER_OF_SYSTEM_MONITORS
        invariant 0 <= a <= MAXIMUM_NUMBER_OF_SYSTEM_MONITORS && View(now) == s && !tripped
        invariant forall i :: 0 <= i < a ==> !LateSlot(s, i) && !HasMissed(systemMonitors[i], now)
      {
        var m := systemMonitors[a];
        assert s.slots[a] == Slot(a);
        if m != null {
          assert s.items[m] == m.View();
          if Since(currentTime, m.lastUpdate) > m.longestPermittedDelay {
            assert LateSlot(s, a) && HasMissed(systemMonitors[a], now);
            tripped := true;
            return;
          }
        }
        a := a + 1;
      }
      reloaded := now;
    }
  }
}
