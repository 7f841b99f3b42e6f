/** Slot calculus of the appointment service: instants are integer milliseconds
    since the Unix epoch, read on the UTC clock the way ECMAScript's Date does
    (floor division, so instants before 1970 get the same day/hour/minute
    fields a Date would report). */
module Slots {

  const MsPerSecond: int := 1000
  const MsPerMinute: int := 60000      // 60 seconds
  const MsPerHour: int := 3600000      // 60 minutes
  const MsPerDay: int := 86400000      // 24 hours

  /** Business calendar constants. */
  const SlotIntervalMinutes: int := 30
  const WorkStartHour: int := 9
  const WorkEndHour: int := 17
  const ModificationWindowHours: int := 2
  /** Search horizon of the forward scan, in days. */
  const MaxDays: int := 30
  /** Minute offsets the scan tries within each hour. */
  const SearchMinutes: seq<int> := [0, 30]

  /** SlotIntervalMinutes in milliseconds. */
  const SlotMs: int := 1800000

  /** Day number of an instant on the UTC clock (Day(t) of ECMAScript). */
  function DayNumber(t: int): int { t / MsPerDay }

  /** getUTCHours */
  function UtcHours(t: int): (h: int)
    ensures 0 <= h < 24
  { (t / MsPerHour) % 24 }

  /** getUTCMinutes */
  function UtcMinutes(t: int): (m: int)
    ensures 0 <= m < 60
  { (t / MsPerMinute) % 60 }

  /** Seconds and milliseconds of an instant. */
  function SubMinute(t: int): (s: int)
    ensures 0 <= s < MsPerMinute
  { t % MsPerMinute }

  /** Every instant is its day, hour, minute and sub-minute part put together. */
  lemma Decompose(t: int)
    ensures t == DayNumber(t) * MsPerDay + UtcHours(t) * MsPerHour
                 + UtcMinutes(t) * MsPerMinute + SubMinute(t)
  {
    var q := t / MsPerMinute;
    assert t == q * MsPerMinute + SubMinute(t);
    var qh := q / 60;
    assert q == qh * 60 + UtcMinutes(t);
    assert qh == t / MsPerHour;
    var qd := qh / 24;
    assert qh == qd * 24 + UtcHours(t);
    assert qd == DayNumber(t);
  }

  /** The fields of an instant built from in-range parts are those parts. */
  lemma Compose(d: int, h: int, m: int, s: int)
    requires 0 <= h < 24 && 0 <= m < 60 && 0 <= s < MsPerMinute
    ensures var t := d * MsPerDay + h * MsPerHour + m * MsPerMinute + s;
      DayNumber(t) == d && UtcHours(t) == h && UtcMinutes(t) == m && SubMinute(t) == s
  {
    var t := d * MsPerDay + h * MsPerHour + m * MsPerMinute + s;
    var q := (d * 24 + h) * 60 + m;
    assert t == q * MsPerMinute + s;
    assert t / MsPerMinute == q && t % MsPerMinute == s;
    assert q == (d * 24 + h) * 60 + m;
    assert q / 60 == d * 24 + h && q % 60 == m;
    assert t / MsPerHour == d * 24 + h;
    assert (d * 24 + h) / 24 == d && (d * 24 + h) % 24 == h;
    assert t / MsPerDay == d;
  }

  /** Two instants with the same fields are equal. */
  lemma FieldsDetermine(t: int, u: int)
    requires DayNumber(t) == DayNumber(u) && UtcHours(t) == UtcHours(u)
    requires UtcMinutes(t) == UtcMinutes(u) && SubMinute(t) == SubMinute(u)
    ensures t == u
  {
    Decompose(t);
    Decompose(u);
  }

  // ---------------------------------------------------------------------------
  // The Date setters used by the service.
  // ---------------------------------------------------------------------------

  /** d.setUTCHours(h, m, 0, 0): keep the UTC day, replace the time of day. */
  function SetUtcHours(t: int, h: int, m: int): int
  {
    DayNumber(t) * MsPerDay + h * MsPerHour + m * MsPerMinute
  }

  /** d.setUTCDate(d.getUTCDate() + k): the calendar rolls over months and
      years, so on the UTC clock this moves the instant by exactly k days. */
  function AddUtcDays(t: int, k: int): int
  {
    t + k * MsPerDay
  }

  // ---------------------------------------------------------------------------
  // normalizeSlot, isValidSlot, isSameDay
  // ---------------------------------------------------------------------------

  /** normalizeSlot: d.setUTCSeconds(0, 0) rebuilds the instant from its
      day, hour and minute with zero seconds and milliseconds. */
  function Normalize(t: int): (r: int)
    ensures r <= t < r + MsPerMinute
    ensures SubMinute(r) == 0
    ensures DayNumber(r) == DayNumber(t) && UtcHours(r) == UtcHours(t) && UtcMinutes(r) == UtcMinutes(t)
  {
    Decompose(t);
    Compose(DayNumber(t), UtcHours(t), UtcMinutes(t), 0);
    DayNumber(t) * MsPerDay + UtcHours(t) * MsPerHour + UtcMinutes(t) * MsPerMinute
  }

  /** Normalizing only drops the seconds and milliseconds. */
  lemma NormalizeTruncates(t: int)
    ensures Normalize(t) == t - t % MsPerMinute
  {
    Decompose(t);
  }

  /** normalizeSlot is idempotent. */
  lemma NormalizeIdempotent(t: int)
    ensures Normalize(Normalize(t)) == Normalize(t)
  {
    FieldsDetermine(Normalize(Normalize(t)), Normalize(t));
  }

  /** An instant is already normalized exactly when it is on a whole minute. */
  lemma NormalizeFixesWholeMinutes(t: int)
    ensures Normalize(t) == t <==> SubMinute(t) == 0
  {
    NormalizeTruncates(t);
  }

  /** isValidSlot: UTC hour in [9, 17) and UTC minute a multiple of 30, so
      the valid minutes are exactly the offsets the forward scan tries. */
  predicate IsValidSlot(t: int): (b: bool)
    ensures b <==> WorkStartHour <= UtcHours(t) < WorkEndHour && UtcMinutes(t) in SearchMinutes
  {
    var h := UtcHours(t);
    var m := UtcMinutes(t);
    if h < WorkStartHour || h >= WorkEndHour then false
    else if m % SlotIntervalMinutes != 0 then false
    else true
  }

  /** Milliseconds elapsed since UTC midnight. */
  function TimeOfDay(t: int): (r: int)
    ensures 0 <= r < MsPerDay
  { t % MsPerDay }

  /** isValidSlot, read on the time of day: the instant lies in the business
      window [09:00, 17:00) and within the first minute of a half hour. */
  lemma ValidSlotWindow(t: int)
    ensures IsValidSlot(t) <==>
      WorkStartHour * MsPerHour <= TimeOfDay(t) < WorkEndHour * MsPerHour
      && TimeOfDay(t) % SlotMs < MsPerMinute
  {
    Decompose(t);
    var h, m, s := UtcHours(t), UtcMinutes(t), SubMinute(t);
    var tod := h * MsPerHour + m * MsPerMinute + s;
    assert TimeOfDay(t) == tod by {
      assert t == DayNumber(t) * MsPerDay + tod;
      assert 0 <= tod < MsPerDay;
    }
    var rest := (m % 30) * MsPerMinute + s;
    assert tod % SlotMs == rest by {
      assert tod == (2 * h + m / 30) * SlotMs + rest;
      assert 0 <= rest < SlotMs;
    }
    assert rest < MsPerMinute <==> m % 30 == 0;
    assert WorkStartHour * MsPerHour <= tod <==> WorkStartHour <= h;
    assert tod < WorkEndHour * MsPerHour <==> h < WorkEndHour;
  }

  /** The edges of the window on any day: 09:00 and 16:30 are slots, 08:59,
      09:15 and 17:00 are not; seconds are not looked at. */
  lemma ValidSlotEdges(d: int)
    ensures IsValidSlot(d * MsPerDay + 9 * MsPerHour)
    ensures IsValidSlot(d * MsPerDay + 16 * MsPerHour + 30 * MsPerMinute)
    ensures IsValidSlot(d * MsPerDay + 9 * MsPerHour + 59 * MsPerSecond)
    ensures !IsValidSlot(d * MsPerDay + 8 * MsPerHour + 59 * MsPerMinute)
    ensures !IsValidSlot(d * MsPerDay + 9 * MsPerHour + 15 * MsPerMinute)
    ensures !IsValidSlot(d * MsPerDay + 17 * MsPerHour)
  {
    Compose(d, 9, 0, 0);
    Compose(d, 16, 30, 0);
    Compose(d, 9, 0, 59 * MsPerSecond);
    Compose(d, 8, 59, 0);
    Compose(d, 9, 15, 0);
    Compose(d, 17, 0, 0);
  }

  /** The local calendar day of an instant, for a fixed time-zone offset in
      milliseconds east of UTC (what toDateString compares). */
  function LocalDay(t: int, tzOffset: int): (d: int)
    ensures d * MsPerDay <= t + tzOffset < d * MsPerDay + MsPerDay
  {
    (t + tzOffset) / MsPerDay
  }

  /** isSameDay: the two instants have the same local calendar date. */
  predicate IsSameDay(t: int, now: int, tzOffset: int): (b: bool)
    ensures b ==> -MsPerDay < t - now < MsPerDay
  {
    LocalDay(t, tzOffset) == LocalDay(now, tzOffset)
  }

  /** isSameDay agrees with equality of UTC day numbers on every pair of
      instants exactly when the offset is a whole number of days; for any
      other offset some two instants of one UTC day fall on two local dates. */
  lemma SameDayIsUtcDayIff(tzOffset: int)
    ensures (forall t, now :: IsSameDay(t, now, tzOffset) <==> DayNumber(t) == DayNumber(now))
            <==> tzOffset % MsPerDay == 0
  {
    var q, r := tzOffset / MsPerDay, tzOffset % MsPerDay;
    if r == 0 {
      forall t, now ensures IsSameDay(t, now, tzOffset) <==> DayNumber(t) == DayNumber(now) {
        assert LocalDay(t, tzOffset) == DayNumber(t) + q;
        assert LocalDay(now, tzOffset) == DayNumber(now) + q;
      }
    } else {
      var t := MsPerDay - r;
      assert DayNumber(t) == DayNumber(0);
      assert LocalDay(t, tzOffset) == q + 1;
      assert LocalDay(0, tzOffset) == q;
    }
  }

  // ---------------------------------------------------------------------------
  // Candidates of the forward search.
  // ---------------------------------------------------------------------------

  /** start: a copy of now moved one UTC day ahead, then set to 09:00:00.000. */
  function SearchStart(now: int): (s: int)
    ensures s == FirstSearchDay(now) * MsPerDay + WorkStartHour * MsPerHour
    ensures now < s
  {
    Decompose(now);
    Compose(DayNumber(now) + 1, UtcHours(now), UtcMinutes(now), SubMinute(now));
    SetUtcHours(AddUtcDays(now, 1), 9, 0)
  }

  /** The slot the scan builds for (day, hour, minute): that many whole days,
      hours and minutes after midnight UTC of the first search day. */
  function CandidateAt(now: int, day: int, hour: int, minute: int): (c: int)
    ensures c == (FirstSearchDay(now) + day) * MsPerDay + hour * MsPerHour + minute * MsPerMinute
  {
    Compose(FirstSearchDay(now), 9, 0, 0);
    Compose(FirstSearchDay(now) + day, 9, 0, 0);
    SetUtcHours(AddUtcDays(SearchStart(now), day), hour, minute)
  }

  /** First UTC day the scan looks at. */
  function FirstSearchDay(now: int): int { DayNumber(now) + 1 }

  /** A candidate slot the scan can return: a whole-minute valid slot on one
      of the MaxDays UTC days after the day of now. */
  predicate IsCandidate(now: int, t: int)
  {
    FirstSearchDay(now) <= DayNumber(t) < FirstSearchDay(now) + MaxDays
    && SubMinute(t) == 0 && IsValidSlot(t)
  }

  /** The slot built for (day, hour, minute) is that time of day on the given
      day after the first search day. */
  lemma CandidateAtFields(now: int, day: int, hour: int, minute: int)
    requires 0 <= hour < 24 && 0 <= minute < 60
    ensures CandidateAt(now, day, hour, minute)
      == (FirstSearchDay(now) + day) * MsPerDay + hour * MsPerHour + minute * MsPerMinute
    ensures var c := CandidateAt(now, day, hour, minute);
      DayNumber(c) == FirstSearchDay(now) + day && UtcHours(c) == hour
      && UtcMinutes(c) == minute && SubMinute(c) == 0
  {
    var f := FirstSearchDay(now);
    Compose(DayNumber(now) + 1, UtcHours(now), UtcMinutes(now), SubMinute(now));
    Decompose(now);
    assert DayNumber(AddUtcDays(now, 1)) == f;
    Compose(f, 9, 0, 0);
    assert DayNumber(SearchStart(now)) == f;
    Compose(f + day, 9, 0, 0);
    assert DayNumber(AddUtcDays(SearchStart(now), day)) == f + day;
    Compose(f + day, hour, minute, 0);
  }

  /** Every position of the scan is a candidate. */
  lemma CandidateAtIsCandidate(now: int, day: int, hour: int, mi: int)
    requires 0 <= day < MaxDays && WorkStartHour <= hour < WorkEndHour && 0 <= mi < |SearchMinutes|
    ensures IsCandidate(now, CandidateAt(now, day, hour, SearchMinutes[mi]))
  {
    CandidateAtFields(now, day, hour, SearchMinutes[mi]);
  }

  /** Every candidate is a position of the scan: its fields are a day of the
      horizon, an hour of the business window and a minute of SearchMinutes. */
  lemma CandidateIsPosition(now: int, t: int)
    requires IsCandidate(now, t)
    ensures 0 <= DayNumber(t) - FirstSearchDay(now) < MaxDays
    ensures WorkStartHour <= UtcHours(t) < WorkEndHour
    ensures UtcMinutes(t) == 0 || UtcMinutes(t) == 30
    ensures t == CandidateAt(now, DayNumber(t) - FirstSearchDay(now), UtcHours(t), UtcMinutes(t))
  {
    Decompose(t);
    CandidateAtFields(now, DayNumber(t) - FirstSearchDay(now), UtcHours(t), UtcMinutes(t));
  }

  /** No candidate lies strictly inside the half hour after a grid position. */
  lemma NoCandidateInsideHalfHour(now: int, t: int, day: int, hour: int, minute: int)
    requires IsCandidate(now, t)
    requires minute == 0 || minute == 30
    ensures !(CandidateAt(now, day, hour, minute) < t < CandidateAt(now, day, hour, minute) + SlotMs)
  {
    CandidateIsPosition(now, t);
    var d, h, m := DayNumber(t) - FirstSearchDay(now), UtcHours(t), UtcMinutes(t);
    var k := 48 * (d - day) + 2 * (h - hour) + (m - minute) / 30;
    assert m - minute == ((m - minute) / 30) * 30;
    assert t - CandidateAt(now, day, hour, minute) == k * SlotMs;
  }

  /** No candidate lies between 17:00 of one search day and 09:00 of the next. */
  lemma NoCandidateOvernight(now: int, t: int, day: int)
    requires IsCandidate(now, t)
    ensures !(CandidateAt(now, day, WorkEndHour, 0) <= t < CandidateAt(now, day + 1, WorkStartHour, 0))
  {
    CandidateIsPosition(now, t);
    var f := FirstSearchDay(now);
    var d, h, m := DayNumber(t) - f, UtcHours(t), UtcMinutes(t);
    var lo, hi := (f + day) * MsPerDay + 17 * MsPerHour, (f + day + 1) * MsPerDay + 9 * MsPerHour;
    assert t == (f + d) * MsPerDay + h * MsPerHour + m * MsPerMinute;
    assert 9 * MsPerHour <= h * MsPerHour + m * MsPerMinute < 17 * MsPerHour;
    if d <= day {
      assert t < (f + day) * MsPerDay + 17 * MsPerHour;
    } else {
      assert t >= (f + day + 1) * MsPerDay + 9 * MsPerHour;
    }
  }

  /** Every candidate lies between the first scan position (tomorrow 09:00 UTC)
      and 09:00 UTC of the day after the horizon. */
  lemma CandidateWithinScan(now: int, t: int)
    requires IsCandidate(now, t)
    ensures CandidateAt(now, 0, WorkStartHour, 0) <= t < CandidateAt(now, MaxDays, WorkStartHour, 0)
  {
    CandidateIsPosition(now, t);
  }

  /** Every candidate is strictly later than now: the scan starts on the next
      UTC day, so the past check can never reject its answer. */
  lemma CandidateAfterNow(now: int, t: int)
    requires IsCandidate(now, t)
    ensures now < t
  {
    Decompose(now);
    Decompose(t);
  }

  /** When the local clock is between nine hours behind UTC and UTC itself,
      no candidate falls on the local day of now. */
  lemma CandidateNotSameDay(now: int, t: int, tzOffset: int)
    requires IsCandidate(now, t)
    requires -WorkStartHour * MsPerHour <= tzOffset <= 0
    ensures !IsSameDay(t, now, tzOffset)
  {
    var f := FirstSearchDay(now);
    CandidateIsPosition(now, t);
    assert now < f * MsPerDay;
    assert t + tzOffset >= f * MsPerDay;
    assert LocalDay(t, tzOffset) >= f;
    assert now + tzOffset < f * MsPerDay;
    assert LocalDay(now, tzOffset) < f;
  }

  /** For any clock ahead of UTC by less than fifteen hours the first
      candidate can share the local date of now: one millisecond before
      midnight UTC it is already the next local day, and tomorrow 09:00 UTC
      falls on that same local day. */
  lemma CandidateSameDayAheadOfUtc(tzOffset: int)
    requires 0 < tzOffset < 15 * MsPerHour
    ensures var now := MsPerDay - 1;
      IsCandidate(now, CandidateAt(now, 0, WorkStartHour, 0))
      && IsSameDay(CandidateAt(now, 0, WorkStartHour, 0), now, tzOffset)
  {
    var now := MsPerDay - 1;
    assert DayNumber(now) == 0;
    CandidateAtIsCandidate(now, 0, WorkStartHour, 0);
    var c := CandidateAt(now, 0, WorkStartHour, 0);
    assert c == MsPerDay + WorkStartHour * MsPerHour;
    assert LocalDay(now, tzOffset) == 1;
    assert LocalDay(c, tzOffset) == 1;
  }
}
