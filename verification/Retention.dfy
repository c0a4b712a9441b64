/** Retention schedules: when an evidence package expires and how a preservation request extends it. */
module Retention {
  import opened Rfc3339
  import opened Wrappers

  /** Durations are nanoseconds. */
  datatype Schedule = Schedule(jurisdiction: string, baseDuration: int, preservationMax: int)

  datatype State = State(
    storedAt: Instant,
    schedule: Schedule,
    preservationEnd: Option<Instant>,
    onLitigationHold: bool)
  {
    function Base(): Instant {
      storedAt + schedule.baseDuration
    }

    /** The zero time stands for "never" while a litigation hold is in place. */
    function ExpiresAt(): Instant {
      if onLitigationHold then ZERO_TIME
      else if preservationEnd.Some? && preservationEnd.value > Base() then preservationEnd.value
      else Base()
    }

    predicate Expired(now: Instant) {
      !onLitigationHold && now > ExpiresAt()
    }

    function PreservationLimit(): Instant {
      storedAt + schedule.preservationMax
    }
  }

  /** January 1 of year 1. */
  const ZERO_TIME: Instant := 31_622_400_000_000_000

  /** The mutable state `ExtendForPreservation` updates through its receiver. */
  class StateCell {
    var state: State

    constructor (state: State)
      ensures this.state == state
    {
      this.state := state;
    }

    method ExtendForPreservation(until: Instant) returns (ok: bool)
      modifies this
      ensures ok <==> until <= old(state).storedAt + old(state).schedule.preservationMax
      ensures state == if ok then old(state).(preservationEnd := Some(until)) else old(state)
      ensures state == Extended(old(state), until)
    {
      var maxAllowed := state.storedAt + state.schedule.preservationMax;
      if until > maxAllowed {
        return false;
      }
      state := state.(preservationEnd := Some(until));
      return true;
    }
  }

  function Extended(s: State, until: Instant): State {
    if until <= s.PreservationLimit() then s.(preservationEnd := Some(until)) else s
  }

  /** A package is expired exactly from the later of its two ends on, and never while on hold. */
  lemma ExpiredMeaning(s: State, now: Instant)
    ensures s.Expired(now) <==>
      && !s.onLitigationHold
      && now > s.storedAt + s.schedule.baseDuration
      && (s.preservationEnd.Some? ==> now > s.preservationEnd.value)
  {
  }

  /**
   The name promises an extension, but an accepted request may shorten retention: it does so exactly
   when the new end precedes the current effective end and that end came from an earlier request.
   */
  lemma ExtensionMayShorten(s: State, until: Instant)
    requires !s.onLitigationHold && until <= s.storedAt + s.schedule.preservationMax
    ensures Extended(s, until).ExpiresAt() < s.ExpiresAt() <==>
      && s.preservationEnd.Some? && s.preservationEnd.value > s.storedAt + s.schedule.baseDuration
      && until < s.preservationEnd.value
    ensures Extended(s, until).ExpiresAt() >= s.storedAt + s.schedule.baseDuration
  {
  }

  /** On hold the effective end is Go's zero time, January 1 of year 1; off hold it is the later of the two ends. */
  lemma ExpiresAtMeaning(s: State)
    ensures s.onLitigationHold ==> s.ExpiresAt() == DayNumber(Date(1, 1, 1)) * 86_400_000_000_000
    ensures !s.onLitigationHold ==>
      && s.ExpiresAt() >= s.storedAt + s.schedule.baseDuration
      && (s.preservationEnd.Some? ==> s.ExpiresAt() >= s.preservationEnd.value)
      && (s.ExpiresAt() == s.storedAt + s.schedule.baseDuration || Some(s.ExpiresAt()) == s.preservationEnd)
  {
    assert DayNumber(Date(1, 1, 1)) == 366;
  }

  /** Whatever sequence of requests is made, retention stays between the base and the schedule's limits. */
  function ExtendedAll(s: State, requests: seq<Instant>): State
    decreases |requests|
  {
    if requests == [] then s else ExtendedAll(Extended(s, requests[0]), requests[1..])
  }

  lemma {:induction false} ExtensionsBounded(s: State, requests: seq<Instant>)
    requires !s.onLitigationHold
    requires s.preservationEnd.Some? ==> s.preservationEnd.value <= s.storedAt + s.schedule.preservationMax
    ensures var r := ExtendedAll(s, requests);
      && r == s.(preservationEnd := r.preservationEnd)
      && s.storedAt + s.schedule.baseDuration <= r.ExpiresAt()
      && r.ExpiresAt() <= s.storedAt +
           (if s.schedule.preservationMax > s.schedule.baseDuration then s.schedule.preservationMax else s.schedule.baseDuration)
    decreases |requests|
  {
    if requests != [] {
      ExtensionsBounded(Extended(s, requests[0]), requests[1..]);
    }
  }
}
