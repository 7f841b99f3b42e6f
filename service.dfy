/** AppointmentService: the scheduling operations over the appointments
    table. The table is the object's state; the clock is the parameter `now`
    and the server's time zone the parameter `tzOffset`. */
module Service {
  import opened Slots
  import opened Table

  /** The errors the service throws. */
  datatype ServiceError =
    | PastTime
    | SameDay
    | InvalidSlot
    | NoAvailableSlots
    | NotFound
    | Unauthorized
    | WindowExpired

  /** The message each error carries. */
  function Message(e: ServiceError): string
  {
    match e
    case PastTime => "Cannot book past time"
    case SameDay => "Same-day booking not allowed"
    case InvalidSlot => "Invalid time slot"
    case NoAvailableSlots => "No available slots found within 30 days"
    case NotFound => "Appointment not found"
    case Unauthorized => "Unauthorized"
    case WindowExpired => "Cancellation window expired"
  }

  datatype Result<T> = Ok(value: T) | Err(error: ServiceError)

  /** The objects checkAvailability returns. */
  datatype Reply =
    | NextAvailable(slot: int)  // {type: "next_available", suggested_slot}
    | Requested(slot: int)      // {type: "requested", available: true, requested_slot}
    | Suggestion(slot: int)     // {suggested_slot}, the search result, with no type

  /** t is the chronologically first free candidate of the search from now. */
  ghost predicate IsEarliestFree(rows: seq<Appointment>, now: int, t: int)
  {
    IsCandidate(now, t) && !Occupied(rows, t)
    && forall u :: IsCandidate(now, u) && u < t ==> Occupied(rows, u)
  }

  /** Every candidate of the search from now is taken. */
  ghost predicate AllOccupied(rows: seq<Appointment>, now: int)
  {
    forall u :: IsCandidate(now, u) ==> Occupied(rows, u)
  }

  /** Every candidate earlier than bound is taken: what the scan knows once it
      has reached bound. */
  ghost predicate TakenBefore(rows: seq<Appointment>, now: int, bound: int)
  {
    forall u :: IsCandidate(now, u) && u < bound ==> Occupied(rows, u)
  }

  /** Nothing is known before the scan starts, and nothing needs to be:
      no candidate precedes tomorrow 09:00 UTC. */
  lemma NothingBeforeStart(rows: seq<Appointment>, now: int)
    ensures TakenBefore(rows, now, CandidateAt(now, 0, WorkStartHour, 0))
  {
    forall u | IsCandidate(now, u) ensures CandidateAt(now, 0, WorkStartHour, 0) <= u {
      CandidateWithinScan(now, u);
    }
  }

  /** The scan moves past a taken slot to the next minute offset. */
  lemma TakenPastMinute(rows: seq<Appointment>, now: int, day: int, hour: int, mi: int)
    requires 0 <= mi < |SearchMinutes|
    requires TakenBefore(rows, now, CandidateAt(now, day, hour, SlotIntervalMinutes * mi))
    requires Occupied(rows, CandidateAt(now, day, hour, SearchMinutes[mi]))
    ensures TakenBefore(rows, now, CandidateAt(now, day, hour, SlotIntervalMinutes * (mi + 1)))
  {
    var minute := SearchMinutes[mi];
    forall u | IsCandidate(now, u) && u < CandidateAt(now, day, hour, SlotIntervalMinutes * (mi + 1))
      ensures Occupied(rows, u)
    {
      NoCandidateInsideHalfHour(now, u, day, hour, minute);
    }
  }

  /** Both minute offsets of an hour done, the scan is at the next hour. */
  lemma TakenPastHour(rows: seq<Appointment>, now: int, day: int, hour: int)
    requires TakenBefore(rows, now, CandidateAt(now, day, hour, SlotIntervalMinutes * |SearchMinutes|))
    ensures TakenBefore(rows, now, CandidateAt(now, day, hour + 1, 0))
  {
  }

  /** The business hours of a day done, the scan is at 09:00 of the next. */
  lemma TakenPastNight(rows: seq<Appointment>, now: int, day: int)
    requires TakenBefore(rows, now, CandidateAt(now, day, WorkEndHour, 0))
    ensures TakenBefore(rows, now, CandidateAt(now, day + 1, WorkStartHour, 0))
  {
    forall u | IsCandidate(now, u) && u < CandidateAt(now, day + 1, WorkStartHour, 0)
      ensures Occupied(rows, u)
    {
      NoCandidateOvernight(now, u, day);
    }
  }

  /** All days of the horizon done, every candidate was taken. */
  lemma TakenPastHorizon(rows: seq<Appointment>, now: int)
    requires TakenBefore(rows, now, CandidateAt(now, MaxDays, WorkStartHour, 0))
    ensures AllOccupied(rows, now)
  {
    forall u | IsCandidate(now, u) ensures Occupied(rows, u) {
      CandidateWithinScan(now, u);
    }
  }

  /** r is what the search from now answers: the earliest free candidate, or
      the exhaustion error when every candidate is taken. */
  ghost predicate SearchAnswer(rows: seq<Appointment>, now: int, r: Result<Reply>)
  {
    (r.Ok? ==> IsEarliestFree(rows, now, r.value.slot))
    && (r.Err? ==> r.error == NoAvailableSlots && AllOccupied(rows, now))
  }

  /** The search has one answer: two searches over the same table from the
      same instant agree. */
  lemma EarliestFreeUnique(rows: seq<Appointment>, now: int, t: int, u: int)
    requires IsEarliestFree(rows, now, t) && IsEarliestFree(rows, now, u)
    ensures t == u
  {
  }

  /** A suggestion handed back to checkAvailability passes every check on a
      server between nine hours behind UTC and UTC; it would be reported as
      the requested slot, free. */
  lemma SuggestionPassesChecks(rows: seq<Appointment>, now: int, t: int, tzOffset: int)
    requires IsEarliestFree(rows, now, t)
    requires -WorkStartHour * MsPerHour <= tzOffset <= 0
    ensures Normalize(t) == t && !(t < now) && !IsSameDay(t, now, tzOffset)
    ensures IsValidSlot(t) && !Occupied(rows, t)
  {
    NormalizeFixesWholeMinutes(t);
    CandidateAfterNow(now, t);
    CandidateNotSameDay(now, t, tzOffset);
  }

  /** When every candidate of the first search day is taken and the next
      morning's 09:00 is free, the search answers that next morning. */
  lemma FullFirstDayGivesNextMorning(rows: seq<Appointment>, now: int)
    requires forall u :: IsCandidate(now, u) && DayNumber(u) == FirstSearchDay(now) ==> Occupied(rows, u)
    requires !Occupied(rows, CandidateAt(now, 1, WorkStartHour, 0))
    ensures IsEarliestFree(rows, now, CandidateAt(now, 1, WorkStartHour, 0))
  {
    var t := CandidateAt(now, 1, WorkStartHour, 0);
    CandidateAtIsCandidate(now, 1, WorkStartHour, 0);
    forall u | IsCandidate(now, u) && u < t ensures Occupied(rows, u) {
      CandidateIsPosition(now, u);
    }
  }

  /** diffHours = (now - createdAt) / 3600000 > MODIFICATION_WINDOW_HOURS,
      on real numbers as in the source. The window closes strictly after two
      hours: exactly two hours after creation the appointment can still be
      cancelled. */
  predicate IsWindowExpired(createdAt: int, now: int): (b: bool)
    ensures b <==> now - createdAt > ModificationWindowHours * MsPerHour
  {
    var d := (now - createdAt) as real;
    assert MsPerHour as real == 3600000.0;
    assert d / 3600000.0 > 2.0 <==> d > 7200000.0;
    d / (MsPerHour as real) > ModificationWindowHours as real
  }

  class AppointmentService {
    /** The appointments table, in insertion order. */
    var appointments: seq<Appointment>
    /** The id the next inserted row receives. */
    var nextId: int

    ghost predicate Valid()
      reads this
    {
      UniqueIds(appointments)
      && forall i :: 0 <= i < |appointments| ==> appointments[i].id < nextId
    }

    constructor ()
      ensures Valid() && appointments == [] && nextId == 1
    {
      appointments := [];
      nextId := 1;
    }

    /** findNextAvailableSlot: scan 30 days, hours 9..16, minutes :00 and :30
        from tomorrow 09:00 UTC; return the first slot no active row holds. */
    method FindNextAvailableSlot(now: int) returns (r: Result<int>)
      ensures r.Ok? ==> IsEarliestFree(appointments, now, r.value)
      ensures r.Err? ==> r.error == NoAvailableSlots && AllOccupied(appointments, now)
    {
      var start := SearchStart(now);
      var day := 0;
      NothingBeforeStart(appointments, now);
      while day < MaxDays
        invariant 0 <= day <= MaxDays
        invariant TakenBefore(appointments, now, CandidateAt(now, day, WorkStartHour, 0))
      {
        var hour := WorkStartHour;
        while hour < WorkEndHour
          invariant WorkStartHour <= hour <= WorkEndHour
          invariant TakenBefore(appointments, now, CandidateAt(now, day, hour, 0))
        {
          var mi := 0;
          while mi < |SearchMinutes|
            invariant 0 <= mi <= |SearchMinutes|
            invariant TakenBefore(appointments, now, CandidateAt(now, day, hour, SlotIntervalMinutes * mi))
          {
            var minute := SearchMinutes[mi];
            var slot := SetUtcHours(AddUtcDays(start, day), hour, minute);
            if !Occupied(appointments, slot) {
              CandidateAtIsCandidate(now, day, hour, mi);
              return Ok(slot);
            }
            TakenPastMinute(appointments, now, day, hour, mi);
            mi := mi + 1;
          }
          TakenPastHour(appointments, now, day, hour);
          hour := hour + 1;
        }
        TakenPastNight(appointments, now, day);
        day := day + 1;
      }
      TakenPastHorizon(appointments, now);
      return Err(NoAvailableSlots);
    }

    /** checkAvailability: with no slot, the next free slot; with a slot, the
        past, same-day and validity checks in that order, then the slot itself
        when free, or the search result when taken. */
    method CheckAvailability(slot: Option<int>, now: int, tzOffset: int) returns (r: Result<Reply>)
      ensures slot.None? ==> SearchAnswer(appointments, now, r) && (r.Ok? ==> r.value.NextAvailable?)
      ensures slot.Some? ==>
        var n := Normalize(slot.value);
        if n < now then r == Err(PastTime)
        else if IsSameDay(n, now, tzOffset) then r == Err(SameDay)
        else if !IsValidSlot(n) then r == Err(InvalidSlot)
        else if !Occupied(appointments, n) then r == Ok(Requested(n))
        else SearchAnswer(appointments, now, r) && (r.Ok? ==> r.value.Suggestion?)
      ensures r.Ok? ==> IsValidSlot(r.value.slot) && now <= r.value.slot && SubMinute(r.value.slot) == 0
                        && !Occupied(appointments, r.value.slot)
    {
      if slot.None? {
        var next := FindNextAvailableSlot(now);
        if next.Err? {
          return Err(next.error);
        }
        CandidateAfterNow(now, next.value);
        return Ok(NextAvailable(next.value));
      }
      var dateObj := Normalize(slot.value);
      if dateObj < now {
        return Err(PastTime);
      }
      if IsSameDay(dateObj, now, tzOffset) {
        return Err(SameDay);
      }
      if !IsValidSlot(dateObj) {
        return Err(InvalidSlot);
      }
      if !Occupied(appointments, dateObj) {
        return Ok(Requested(dateObj));
      }
      var next := FindNextAvailableSlot(now);
      if next.Err? {
        return Err(next.error);
      }
      CandidateAfterNow(now, next.value);
      return Ok(Suggestion(next.value));
    }

    /** bookAppointment: insert a confirmed row at the normalized slot. No
        check of any kind is made. */
    method BookAppointment(userId: int, slot: int, viaChat: bool, now: int) returns (a: Appointment)
      requires Valid()
      modifies this
      ensures Valid()
      ensures a == Appointment(old(nextId), userId, Normalize(slot), viaChat, Confirmed, now, now)
      ensures appointments == old(appointments) + [a] && nextId == old(nextId) + 1
    {
      a := Appointment(nextId, userId, Normalize(slot), viaChat, Confirmed, now, now);
      appointments := appointments + [a];
      nextId := nextId + 1;
    }

    /** cancelAppointment: not found, then ownership, then the two-hour window
        since creation; otherwise mark the row cancelled whatever its status. */
    method CancelAppointment(userId: int, appointmentId: int, now: int) returns (r: Result<Appointment>)
      requires Valid()
      modifies this
      ensures Valid() && nextId == old(nextId)
      ensures Find(old(appointments), appointmentId).None? ==>
        r == Err(NotFound) && appointments == old(appointments)
      ensures Find(old(appointments), appointmentId).Some? ==>
        var a := Find(old(appointments), appointmentId).value;
        if a.userId != userId then
          r == Err(Unauthorized) && appointments == old(appointments)
        else if IsWindowExpired(a.createdAt, now) then
          r == Err(WindowExpired) && appointments == old(appointments)
        else
          r == Ok(MarkCancelled(a, now)) && appointments == CancelById(old(appointments), appointmentId, now)
    {
      var found := Find(appointments, appointmentId);
      if found.None? {
        return Err(NotFound);
      }
      var appointment := found.value;
      if appointment.userId != userId {
        return Err(Unauthorized);
      }
      if IsWindowExpired(appointment.createdAt, now) {
        return Err(WindowExpired);
      }
      CancelByIdKeepsInvariants(appointments, appointmentId, now);
      appointments := CancelById(appointments, appointmentId, now);
      r := Ok(MarkCancelled(appointment, now));
    }

    /** getUserAppointments: the user's rows of any status, by date. */
    function GetUserAppointments(userId: int): (r: seq<Appointment>)
      reads this
      ensures SortedByDate(r)
      ensures forall a :: multiset(r)[a] == if a.userId == userId then multiset(appointments)[a] else 0
    {
      SortByDate(OwnedBy(appointments, userId))
    }
  }
}
