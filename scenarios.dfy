/** Worked scenarios on one calendar: business hours 09:00-17:00 UTC, slots
    of 30 minutes, the clock at 2024-01-01T10:00:00Z, the server on UTC. */
module Scenarios {
  import opened Slots
  import opened Table
  import opened Service

  /** 2024-01-01T10:00:00Z */
  const Jan1At10: int := 19723 * MsPerDay + 10 * MsPerHour
  /** 2024-01-01T11:00:00Z */
  const Jan1At11: int := 19723 * MsPerDay + 11 * MsPerHour
  /** 2024-01-02T09:00:00Z */
  const Jan2At9: int := 19724 * MsPerDay + 9 * MsPerHour
  /** 2024-01-03T09:00:00Z */
  const Jan3At9: int := 19725 * MsPerDay + 9 * MsPerHour

  /** The availability check refuses a same-day slot, but booking itself
      checks nothing: the same slot is booked twice and both rows are
      active. */
  method SameDayAndDoubleBooking() returns (check: Result<Reply>, first: Appointment, second: Appointment)
    ensures check == Err(SameDay)
    ensures first.date == Jan2At9 && second.date == Jan2At9 && first.id != second.id
    ensures Active(first) && Active(second)
  {
    var s := new AppointmentService();
    NormalizeFixesWholeMinutes(Jan1At11);
    NormalizeFixesWholeMinutes(Jan2At9);
    check := s.CheckAvailability(Some(Jan1At11), Jan1At10, 0);
    first := s.BookAppointment(1, Jan2At9, false, Jan1At10);
    second := s.BookAppointment(2, Jan2At9, false, Jan1At10);
    assert !NoDoubleBooking(s.appointments) by {
      assert s.appointments[0] == first && s.appointments[1] == second;
    }
  }

  /** Cancellation one hour after booking succeeds; cancelling the already
      cancelled row again within the window succeeds and restamps it; another
      user is refused before the window is looked at; three hours after
      booking the owner is refused. */
  method CancellationWindow() returns (early: Result<Appointment>, again: Result<Appointment>,
                                       stranger: Result<Appointment>, late: Result<Appointment>)
    ensures early.Ok? && early.value.status == Cancelled && early.value.updatedAt == Jan1At10 + MsPerHour
    ensures again.Ok? && again.value.status == Cancelled && again.value.updatedAt == Jan1At10 + 90 * MsPerMinute
    ensures stranger == Err(Unauthorized)
    ensures late == Err(WindowExpired)
  {
    var s := new AppointmentService();
    var a := s.BookAppointment(1, Jan2At9, false, Jan1At10);
    assert s.appointments == [a] && a.id == 1;
    early := s.CancelAppointment(1, 1, Jan1At10 + MsPerHour);
    assert s.appointments[0].id == 1 && s.appointments[0].createdAt == Jan1At10;
    again := s.CancelAppointment(1, 1, Jan1At10 + 90 * MsPerMinute);
    assert s.appointments[0].id == 1 && s.appointments[0].userId == 1 && s.appointments[0].createdAt == Jan1At10;
    stranger := s.CancelAppointment(2, 1, Jan1At10 + 3 * MsPerHour);
    late := s.CancelAppointment(1, 1, Jan1At10 + 3 * MsPerHour);
  }

  /** Sixteen active rows on the half hours from the first scan position on
      take every candidate of the first search day and leave the next
      morning free. */
  lemma FirstDayTaken(rows: seq<Appointment>, now: int)
    requires |rows| == 16
    requires forall i :: 0 <= i < 16 ==>
      rows[i].date == CandidateAt(now, 0, WorkStartHour, 0) + i * SlotMs && Active(rows[i])
    ensures forall u :: IsCandidate(now, u) && DayNumber(u) == FirstSearchDay(now) ==> Occupied(rows, u)
    ensures !Occupied(rows, CandidateAt(now, 1, WorkStartHour, 0))
  {
    forall u | IsCandidate(now, u) && DayNumber(u) == FirstSearchDay(now)
      ensures Occupied(rows, u)
    {
      CandidateIsPosition(now, u);
      var i := 2 * (UtcHours(u) - WorkStartHour) + UtcMinutes(u) / SlotIntervalMinutes;
      assert rows[i].date == u;
    }
  }

  /** With every slot of 2024-01-02 taken, the search answers
      2024-01-03T09:00:00Z. */
  method FullDayMovesToNextMorning() returns (r: Result<int>)
    ensures r == Ok(Jan3At9)
  {
    var s := new AppointmentService();
    assert Jan2At9 == CandidateAt(Jan1At10, 0, WorkStartHour, 0);
    var k := 0;
    while k < 16
      invariant 0 <= k <= 16 && s.Valid()
      invariant |s.appointments| == k
      invariant forall i :: 0 <= i < k ==> s.appointments[i].date == Jan2At9 + i * SlotMs && Active(s.appointments[i])
    {
      NormalizeFixesWholeMinutes(Jan2At9 + k * SlotMs);
      var _ := s.BookAppointment(1, Jan2At9 + k * SlotMs, false, Jan1At10);
      k := k + 1;
    }
    FirstDayTaken(s.appointments, Jan1At10);
    assert CandidateAt(Jan1At10, 1, WorkStartHour, 0) == Jan3At9;
    FullFirstDayGivesNextMorning(s.appointments, Jan1At10);
    r := s.FindNextAvailableSlot(Jan1At10);
    EarliestFreeUnique(s.appointments, Jan1At10, r.value, Jan3At9);
  }
}
