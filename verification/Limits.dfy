/** Exposure limits of one reviewer's shift: the bare tracker and the session that drives it. */
module Limits {
  import opened Wrappers

  type u32 = n: int | 0 <= n <= 0xFFFF_FFFF
  type u64 = n: int | 0 <= n <= 0xFFFF_FFFF_FFFF_FFFF

  function SatAdd(a: u64, b: u64): u64 {
    if a + b > 0xFFFF_FFFF_FFFF_FFFF then 0xFFFF_FFFF_FFFF_FFFF else a + b
  }

  function SatSub(a: u64, b: u64): u64 {
    if a < b then 0 else a - b
  }

  function SatIncrement(a: u32): u32 {
    if a == 0xFFFF_FFFF then a else a + 1
  }

  datatype ExposureLimits = ExposureLimits(maxItems: u32, maxContinuous: u64, breakTime: u64)

  datatype Decision = Allowed | BreakRequired(resumeAt: u64) | ShiftCapReached

  /** The fields of a tracker at one moment. */
  datatype Shift = Shift(limits: ExposureLimits, items: u32, started: Option<u64>, breakUntil: Option<u64>)

  function Fresh(limits: ExposureLimits): Shift {
    Shift(limits, 0, None, None)
  }

  function CheckShift(s: Shift, now: u64): Decision {
    if s.breakUntil.Some? && now < s.breakUntil.value then BreakRequired(s.breakUntil.value)
    else if s.items >= s.limits.maxItems then ShiftCapReached
    else if s.started.Some? && SatSub(now, s.started.value) >= s.limits.maxContinuous then
      BreakRequired(SatAdd(now, s.limits.breakTime))
    else Allowed
  }

  /** No break deadline lies ahead. */
  predicate NoBreak(s: Shift, now: u64) {
    s.breakUntil.None? || now >= s.breakUntil.value
  }

  function Exposed(s: Shift, now: u64): Shift {
    var elapsed := s.breakUntil.Some? && now >= s.breakUntil.value;
    var until := if elapsed then None else s.breakUntil;
    var started := if elapsed then None else s.started;
    var exceeded := started.Some? && SatSub(now, started.value) >= s.limits.maxContinuous;
    Shift(s.limits, SatIncrement(s.items),
          if exceeded || started.None? then Some(now) else started,
          if exceeded then Some(SatAdd(now, s.limits.breakTime)) else until)
  }

  function Rested(s: Shift): Shift {
    s.(started := None)
  }

  class ShiftTracker {
    const limits: ExposureLimits
    var itemsRevealed: u32
    var exposureStarted: Option<u64>
    var breakUntil: Option<u64>

    ghost function State(): Shift
      reads this
    {
      Shift(limits, itemsRevealed, exposureStarted, breakUntil)
    }

    constructor (limits: ExposureLimits)
      ensures State() == Fresh(limits)
    {
      this.limits := limits;
      itemsRevealed := 0;
      exposureStarted := None;
      breakUntil := None;
    }

    method Check(now: u64) returns (d: Decision)
      ensures d == CheckShift(State(), now)
    {
      match breakUntil {
        case Some(until) => if now < until { return BreakRequired(until); }
        case None =>
      }
      if itemsRevealed >= limits.maxItems {
        return ShiftCapReached;
      }
      match exposureStarted {
        case Some(started) =>
          if SatSub(now, started) >= limits.maxContinuous {
            return BreakRequired(SatAdd(now, limits.breakTime));
          }
        case None =>
      }
      return Allowed;
    }

    method RecordExposure(now: u64)
      modifies this
      ensures State() == Exposed(old(State()), now)
    {
      match breakUntil {
        case Some(until) =>
          if now >= until {
            breakUntil := None;
            exposureStarted := None;
          }
        case None =>
      }
      match exposureStarted {
        case Some(started) =>
          if SatSub(now, started) >= limits.maxContinuous {
            breakUntil := Some(SatAdd(now, limits.breakTime));
            exposureStarted := None;
          }
        case None =>
      }
      if exposureStarted.None? {
        exposureStarted := Some(now);
      }
      itemsRevealed := SatIncrement(itemsRevealed);
    }

    method RecordRest(now: u64)
      modifies this
      ensures State() == Rested(old(State()))
    {
      exposureStarted := None;
    }

    method ItemsRemaining() returns (n: u32)
      ensures n > 0 ==> n + State().items == limits.maxItems
      ensures forall now :: NoBreak(State(), now) ==> (n == 0 <==> CheckShift(State(), now) == ShiftCapReached)
    {
      n := if itemsRevealed >= limits.maxItems then 0 else limits.maxItems - itemsRevealed;
    }
  }

  datatype ItemDecision = Reveal | Blocked(reason: Decision)

  /** A session owns its tracker and records an exposure exactly when it grants a reveal. */
  class Session {
    const shift: ShiftTracker

    constructor (limits: ExposureLimits)
      ensures fresh(shift) && shift.State() == Fresh(limits)
    {
      shift := new ShiftTracker(limits);
    }

    method RequestReveal(now: u64) returns (d: ItemDecision)
      modifies shift
      ensures shift.State() == SessionStep(old(shift.State()), Request(now))
      ensures d == if CheckShift(old(shift.State()), now) == Allowed then Reveal else Blocked(CheckShift(old(shift.State()), now))
    {
      var decision := shift.Check(now);
      if decision != Allowed {
        return Blocked(decision);
      }
      shift.RecordExposure(now);
      return Reveal;
    }

    method RecordItemClosed(now: u64)
      modifies shift
      ensures shift.State() == SessionStep(old(shift.State()), Closed(now))
    {
      shift.RecordRest(now);
    }
  }

  // ----- sessions -----

  datatype SessionEvent = Request(now: u64) | Closed(now: u64)

  function SessionStep(s: Shift, e: SessionEvent): Shift {
    match e
    case Request(now) => if CheckShift(s, now) == Allowed then Exposed(s, now) else s
    case Closed(_) => Rested(s)
  }

  function AfterEvents(limits: ExposureLimits, events: seq<SessionEvent>): Shift {
    if events == [] then Fresh(limits)
    else SessionStep(AfterEvents(limits, events[..|events| - 1]), events[|events| - 1])
  }

  /** Event i was a request and it was granted. */
  predicate Revealed(limits: ExposureLimits, events: seq<SessionEvent>, i: nat)
    requires i < |events|
  {
    events[i].Request? && CheckShift(AfterEvents(limits, events[..i]), events[i].now) == Allowed
  }

  function Reveals(limits: ExposureLimits, events: seq<SessionEvent>): nat {
    if events == [] then 0
    else
      var n := |events| - 1;
      Reveals(limits, events[..n]) + if Revealed(limits, events, n) then 1 else 0
  }

  /** Reveal i is part of the stretch that is still open: nothing was closed since. */
  predicate Open(limits: ExposureLimits, events: seq<SessionEvent>, i: nat) {
    i < |events| && Revealed(limits, events, i) && forall k :: i < k < |events| ==> events[k].Request?
  }

  predicate NonDecreasing(events: seq<SessionEvent>) {
    forall i, j :: 0 <= i < j < |events| ==> events[i].now <= events[j].now
  }

  /** What the tracker's fields mean in terms of the events so far. */
  ghost predicate Explains(limits: ExposureLimits, events: seq<SessionEvent>, s: Shift) {
    && s.limits == limits && s.breakUntil == None
    && s.items == Reveals(limits, events) && s.items <= limits.maxItems
    && (s.started.None? ==> forall i: nat :: !Open(limits, events, i))
    && (s.started.Some? ==>
          && (exists i: nat :: Open(limits, events, i) && events[i].now == s.started.value)
          && (forall i: nat :: Open(limits, events, i) ==> s.started.value <= events[i].now))
  }

  lemma PrefixRevealed(limits: ExposureLimits, events: seq<SessionEvent>, i: nat)
    requires i < |events| - 1
    ensures Revealed(limits, events, i) == Revealed(limits, events[..|events| - 1], i)
  {
    assert events[..|events| - 1][..i] == events[..i];
  }

  lemma OpenStep(limits: ExposureLimits, events: seq<SessionEvent>, i: nat)
    requires events != []
    ensures var n := |events| - 1;
      Open(limits, events, i) <==>
        (i == n && Revealed(limits, events, n)) || (i < n && events[n].Request? && Open(limits, events[..n], i))
  {
    if i < |events| - 1 {
      PrefixRevealed(limits, events, i);
    }
  }

  lemma {:induction false} SessionExplained(limits: ExposureLimits, events: seq<SessionEvent>)
    requires NonDecreasing(events)
    ensures Explains(limits, events, AfterEvents(limits, events))
  {
    if events != [] {
      var n := |events| - 1;
      var before, s := AfterEvents(limits, events[..n]), AfterEvents(limits, events);
      SessionExplained(limits, events[..n]);
      forall i: nat
        ensures Open(limits, events, i) <==>
          (i == n && Revealed(limits, events, n)) || (i < n && events[n].Request? && Open(limits, events[..n], i))
      {
        OpenStep(limits, events, i);
      }
      if s.started.Some? {
        if before.started.Some? && events[n].Request? {
          var i: nat :| Open(limits, events[..n], i) && events[..n][i].now == before.started.value;
          assert Open(limits, events, i) && events[i].now == before.started.value;
        } else {
          assert Open(limits, events, n);
        }
      }
    }
  }

  /** Reveals are counted exactly and never exceed the cap. */
  lemma RevealsCounted(limits: ExposureLimits, events: seq<SessionEvent>)
    requires NonDecreasing(events)
    ensures AfterEvents(limits, events).items == Reveals(limits, events) <= limits.maxItems
  {
    SessionExplained(limits, events);
  }

  /** What is left of the cap. */
  function Remaining(s: Shift): u32 {
    if s.items >= s.limits.maxItems then 0 else s.limits.maxItems - s.items
  }

  /**
   The remaining budget is the cap less the reveals granted so far; it is used up exactly when a request,
   at whatever time, is refused because of the cap.
   */
  lemma RemainingBudget(limits: ExposureLimits, events: seq<SessionEvent>, now: u64)
    requires NonDecreasing(events)
    ensures var s := AfterEvents(limits, events);
      && Remaining(s) + Reveals(limits, events) == limits.maxItems
      && (Remaining(s) == 0 <==> CheckShift(s, now) == ShiftCapReached)
  {
    SessionExplained(limits, events);
  }

  /**
   The whole gate in terms of the events alone: a request is granted exactly when the cap is not reached
   and every reveal since the last close is less than the continuous limit ago.
   */
  lemma GrantedExactlyWhen(limits: ExposureLimits, events: seq<SessionEvent>, now: u64)
    requires NonDecreasing(events + [Request(now)])
    ensures CheckShift(AfterEvents(limits, events), now) == Allowed <==>
      && Reveals(limits, events) < limits.maxItems
      && forall i: nat :: Open(limits, events, i) ==> now - events[i].now < limits.maxContinuous
  {
    assert forall i :: 0 <= i < |events| ==> (events + [Request(now)])[i] == events[i];
    assert (events + [Request(now)])[|events|].now == now;
    SessionExplained(limits, events);
  }

  /**
   Within a stretch without a close, a later reveal comes less than the continuous limit after an earlier
   one; equivalently, once that span is exceeded every request is refused until something is closed.
   */
  lemma StretchBounded(limits: ExposureLimits, events: seq<SessionEvent>, i: nat, j: nat)
    requires NonDecreasing(events) && i < j < |events|
    requires Revealed(limits, events, i) && Revealed(limits, events, j)
    requires forall k :: i < k < j ==> events[k].Request?
    ensures events[j].now - events[i].now < limits.maxContinuous
  {
    var before := events[..j];
    assert events[..i] == before[..i];
    assert Open(limits, before, i);
    assert before + [Request(events[j].now)] == events[..j + 1];
    GrantedExactlyWhen(limits, before, events[j].now);
  }

  /**
   A session never commits the break it announces. Closing the item lifts the refusal at once, long
   before the announced time; waiting, even past it, does not.
   */
  lemma AnnouncedBreakNotEnforced(limits: ExposureLimits, events: seq<SessionEvent>, now: u64, later: u64)
    requires NonDecreasing(events) && now <= later
    requires var s := AfterEvents(limits, events); CheckShift(s, now).BreakRequired?
    ensures var s := AfterEvents(limits, events);
      && CheckShift(s, now) == BreakRequired(SatAdd(now, limits.breakTime))
      && CheckShift(SessionStep(s, Closed(now)), now) == Allowed
      && CheckShift(SessionStep(s, Request(now)), later) == BreakRequired(SatAdd(later, limits.breakTime))
  {
    SessionExplained(limits, events);
  }

  /** Such a refusal is reached: one reveal and five milliseconds later, under a limit of five. */
  lemma AnnouncedBreakReached()
    ensures var s := AfterEvents(ExposureLimits(10, 5, 3), [Request(0)]);
      CheckShift(s, 5) == BreakRequired(8) && CheckShift(SessionStep(s, Closed(5)), 5) == Allowed
  {
    assert [Request(0)][..0] == [];
    assert AfterEvents(ExposureLimits(10, 5, 3), []) == Fresh(ExposureLimits(10, 5, 3));
  }

  // ----- the bare tracker -----

  datatype TrackerEvent = Exposure(now: u64) | Rest(now: u64)

  function TrackerStep(s: Shift, e: TrackerEvent): Shift {
    if e.Exposure? then Exposed(s, e.now) else Rested(s)
  }

  function Tracked(s: Shift, events: seq<TrackerEvent>): Shift {
    if events == [] then s else TrackerStep(Tracked(s, events[..|events| - 1]), events[|events| - 1])
  }

  predicate Ordered(events: seq<TrackerEvent>) {
    forall i, j :: 0 <= i < j < |events| ==> events[i].now <= events[j].now
  }

  /** An active deadline was set by some exposure of the past. */
  ghost predicate DeadlineSet(s: Shift, events: seq<TrackerEvent>) {
    s.breakUntil.Some? ==>
      exists i :: 0 <= i < |events| && events[i].Exposure? && s.breakUntil.value == SatAdd(events[i].now, s.limits.breakTime)
  }

  lemma {:induction false} DeadlineFromExposure(limits: ExposureLimits, events: seq<TrackerEvent>)
    ensures var s := Tracked(Fresh(limits), events); s.limits == limits && DeadlineSet(s, events)
  {
    if events != [] {
      var n := |events| - 1;
      var before, s := Tracked(Fresh(limits), events[..n]), Tracked(Fresh(limits), events);
      DeadlineFromExposure(limits, events[..n]);
      if s.breakUntil.Some? {
        if s.breakUntil == before.breakUntil {
          var i :| 0 <= i < n && events[..n][i].Exposure?
            && before.breakUntil.value == SatAdd(events[..n][i].now, limits.breakTime);
          assert events[i] == events[..n][i];
        } else {
          assert s.breakUntil.value == SatAdd(events[n].now, limits.breakTime);
        }
      }
    }
  }

  lemma DeadlineKept(s: Shift, e: TrackerEvent, until: u64)
    requires s.breakUntil.Some? && s.breakUntil.value >= until > e.now
    requires SatAdd(e.now, s.limits.breakTime) >= until
    ensures var b := TrackerStep(s, e).breakUntil; b.Some? && b.value >= until
  {
  }

  /**
   Once a break deadline is active it never moves earlier, and every check before it is refused, whatever
   exposures and rests the host records in the meantime and also where the deadline saturates.
   */
  lemma {:induction false} BreakEnforced(limits: ExposureLimits, past: seq<TrackerEvent>, more: seq<TrackerEvent>, now: u64)
    requires Ordered(past + more)
    requires var until := Tracked(Fresh(limits), past).breakUntil;
      until.Some? && now < until.value && forall i :: 0 <= i < |more| ==> more[i].now < until.value
    ensures var until := Tracked(Fresh(limits), past).breakUntil;
      var s := Tracked(Fresh(limits), past + more);
      && s.breakUntil.Some? && s.breakUntil.value >= until.value
      && CheckShift(s, now) == BreakRequired(s.breakUntil.value)
    decreases |more|
  {
    hide TrackerStep, Ordered;
    if more == [] {
      assert past + more == past;
    } else {
      var n := |more| - 1;
      var all, front := past + more, past + more[..n];
      assert all[..|all| - 1] == front && all[|all| - 1] == more[n];
      PrefixOrdered(all);
      BreakEnforced(limits, past, more[..n], now);
      DeadlineFromExposure(limits, past);
      DeadlineFromExposure(limits, front);
      var until := Tracked(Fresh(limits), past).breakUntil.value;
      var i :| 0 <= i < |past| && until == SatAdd(past[i].now, limits.breakTime);
      assert past[i] == all[i];
      LastIsLatest(all, i);
      assert SatAdd(all[i].now, limits.breakTime) <= SatAdd(more[n].now, limits.breakTime);
      DeadlineKept(Tracked(Fresh(limits), front), more[n], until);
    }
  }

  lemma PrefixOrdered(events: seq<TrackerEvent>)
    requires events != [] && Ordered(events)
    ensures Ordered(events[..|events| - 1])
  {
  }

  lemma LastIsLatest(events: seq<TrackerEvent>, i: nat)
    requires i < |events| && Ordered(events)
    ensures events[i].now <= events[|events| - 1].now
  {
  }

  /** After the deadline, with a rest recorded and the cap not reached, the next check allows. */
  lemma BreakEnds(s: Shift, now: u64, later: u64)
    requires s.breakUntil.Some? && later >= s.breakUntil.value && s.items < s.limits.maxItems
    ensures CheckShift(TrackerStep(s, Rest(now)), later) == Allowed
  {
  }

  // ----- what a tracker's checks say about its run -----

  function Exposures(events: seq<TrackerEvent>): nat {
    if events == [] then 0
    else Exposures(events[..|events| - 1]) + if events[|events| - 1].Exposure? then 1 else 0
  }

  /** Nothing was revealed yet, or the last thing recorded is a rest. */
  predicate AtRest(events: seq<TrackerEvent>) {
    events == [] || events[|events| - 1].Rest?
  }

  /** For runs of any length and in any order: the count is exact up to its width, and a window is open unless at rest. */
  lemma {:induction false} TrackerCounts(limits: ExposureLimits, events: seq<TrackerEvent>)
    ensures var s := Tracked(Fresh(limits), events);
      && s.limits == limits
      && s.items == (if Exposures(events) <= 0xFFFF_FFFF then Exposures(events) else 0xFFFF_FFFF)
      && (s.started.None? <==> AtRest(events))
  {
    if events != [] {
      TrackerCounts(limits, events[..|events| - 1]);
    }
  }

  /** The exposure at this time, after these events, comes once the active break is over. */
  predicate AfterBreak(limits: ExposureLimits, past: seq<TrackerEvent>, t0: u64) {
    var deadline := Tracked(Fresh(limits), past).breakUntil;
    deadline.Some? && t0 >= deadline.value
  }

  /** It comes in an open window, and too late for it. */
  predicate PastWindow(limits: ExposureLimits, past: seq<TrackerEvent>, t0: u64) {
    var started := Tracked(Fresh(limits), past).started;
    && !AfterBreak(limits, past, t0)
    && started.Some? && (if t0 < started.value then 0 else t0 - started.value) >= limits.maxContinuous
  }

  /** Exposures only, each less than the continuous limit after t0 and before the deadline, if there is one. */
  predicate Continues(limits: ExposureLimits, more: seq<TrackerEvent>, t0: u64, deadline: Option<u64>) {
    forall i :: 0 <= i < |more| ==>
      && more[i].Exposure? && t0 <= more[i].now < t0 + limits.maxContinuous
      && (deadline.Some? ==> more[i].now < deadline.value)
  }

  /** The refusals of a stretch that began at t0, by its own clock. */
  predicate StretchVerdict(limits: ExposureLimits, d: Decision, items: nat, t0: u64, deadline: Option<u64>, now: u64) {
    if deadline.Some? && now < deadline.value then d == BreakRequired(deadline.value)
    else if items >= limits.maxItems then d == ShiftCapReached
    else if now >= t0 + limits.maxContinuous then
      d == BreakRequired(if now + limits.breakTime <= 0xFFFF_FFFF_FFFF_FFFF then now + limits.breakTime else 0xFFFF_FFFF_FFFF_FFFF)
    else d == Allowed
  }

  lemma {:induction false} StretchKept(limits: ExposureLimits, s: Shift, more: seq<TrackerEvent>, t0: u64)
    requires s.limits == limits && s.started == Some(t0) && Continues(limits, more, t0, s.breakUntil)
    ensures Tracked(s, more) == s.(items := Tracked(s, more).items)
  {
    if more != [] {
      StretchKept(limits, s, more[..|more| - 1], t0);
    }
  }

  lemma {:induction false} TrackedConcat(s: Shift, a: seq<TrackerEvent>, b: seq<TrackerEvent>)
    ensures Tracked(s, a + b) == Tracked(Tracked(s, a), b)
    decreases |b|
  {
    hide TrackerStep;
    if b == [] {
      assert a + b == a;
    } else {
      assert (a + b)[..|a + b| - 1] == a + b[..|b| - 1];
      TrackedConcat(s, a, b[..|b| - 1]);
    }
  }

  /**
   How an exposure at t0 opens a stretch, for every run before it: the first after a rest, the first after
   an elapsed break, which is then over for good, or one past the window, which commits a new break. The
   checks of the whole stretch follow, until something else is recorded.
   */
  lemma StretchOpens(limits: ExposureLimits, past: seq<TrackerEvent>, t0: u64, more: seq<TrackerEvent>, now: u64)
    requires AtRest(past) || AfterBreak(limits, past, t0) || PastWindow(limits, past, t0)
    requires now >= t0
    requires Continues(limits, more, t0, DeadlineAt(limits, past, t0))
    ensures StretchVerdict(limits, CheckShift(Tracked(Fresh(limits), past + [Exposure(t0)] + more), now),
                           Exposures(past) + 1 + |more|, t0, DeadlineAt(limits, past, t0), now)
  {
    var begun := past + [Exposure(t0)];
    var before, s := Tracked(Fresh(limits), past), Tracked(Fresh(limits), begun);
    TrackerCounts(limits, past);
    assert begun[..|begun| - 1] == past;
    assert s.started == Some(t0) && s.breakUntil == DeadlineAt(limits, past, t0);
    TrackedConcat(Fresh(limits), begun, more);
    StretchKept(limits, s, more, t0);
    TrackerCounts(limits, begun + more);
    ExposuresOfStretch(begun, more);
  }

  lemma {:induction false} ExposuresOfStretch(a: seq<TrackerEvent>, more: seq<TrackerEvent>)
    requires forall i :: 0 <= i < |more| ==> more[i].Exposure?
    ensures Exposures(a + more) == Exposures(a) + |more|
    decreases |more|
  {
    if more == [] {
      assert a + more == a;
    } else {
      assert (a + more)[..|a + more| - 1] == a + more[..|more| - 1];
      ExposuresOfStretch(a, more[..|more| - 1]);
    }
  }

  /** The deadline in force after the exposure at t0: none once it has elapsed, a new one when the window was exceeded. */
  function DeadlineAt(limits: ExposureLimits, past: seq<TrackerEvent>, t0: u64): Option<u64> {
    if AfterBreak(limits, past, t0) then None
    else if PastWindow(limits, past, t0) then
      Some(if t0 + limits.breakTime <= 0xFFFF_FFFF_FFFF_FFFF then t0 + limits.breakTime else 0xFFFF_FFFF_FFFF_FFFF)
    else Tracked(Fresh(limits), past).breakUntil
  }

  /** An exposure inside the window changes neither the window nor the deadline. */
  lemma StretchContinues(limits: ExposureLimits, past: seq<TrackerEvent>, t: u64)
    requires !AtRest(past) && !AfterBreak(limits, past, t) && !PastWindow(limits, past, t)
    ensures var before, s := Tracked(Fresh(limits), past), Tracked(Fresh(limits), past + [Exposure(t)]);
      s == before.(items := s.items)
  {
    assert (past + [Exposure(t)])[..|past|] == past;
    TrackerCounts(limits, past);
  }

  /** Reveals at 0, 6, 10 and 13 under a limit of 5: the break of 6 is over at 10, so 16 is too late again. */
  lemma LimitActsAgainAfterBreak()
    ensures var limits := ExposureLimits(10, 5, 3);
      CheckShift(Tracked(Fresh(limits), [Exposure(0), Exposure(6), Exposure(10), Exposure(13)]), 16) == BreakRequired(19)
  {
    var limits := ExposureLimits(10, 5, 3);
    var e1, e2 := [Exposure(0)], [Exposure(0), Exposure(6)];
    assert e1[..0] == [] && e2[..1] == e1 && [Exposure(0), Exposure(6), Exposure(10)][..2] == e2;
    assert Tracked(Fresh(limits), e1) == Shift(limits, 1, Some(0), None);
    assert Tracked(Fresh(limits), e2) == Shift(limits, 2, Some(6), Some(9));
    assert e2 + [Exposure(10)] + [Exposure(13)] == [Exposure(0), Exposure(6), Exposure(10), Exposure(13)];
    StretchOpens(limits, e2, 10, [Exposure(13)], 16);
    assert Exposures(e2) == 2;
  }

  /** A host that reveals past the continuous limit is what commits a break. */
  lemma OverexposureCommitsBreak(s: Shift, now: u64)
    ensures s.breakUntil.Some? && now >= s.breakUntil.value ==> TrackerStep(s, Exposure(now)).breakUntil == None
    ensures s.breakUntil.None? || now < s.breakUntil.value ==>
      var until, exceeded := TrackerStep(s, Exposure(now)).breakUntil,
                             s.started.Some? && SatSub(now, s.started.value) >= s.limits.maxContinuous;
      && (until != s.breakUntil ==> exceeded)
      && (exceeded ==> until == Some(SatAdd(now, s.limits.breakTime)))
  {
  }
}
