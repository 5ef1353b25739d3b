/**
  The member side of the membership lifecycle: the expiration a plan gives a member
  who joins on a given instant, the status reported for an expiration, and the
  create and update requests that store them.
*/
module Members {
  import opened Wrappers
  import opened Calendar
  import opened Store

  // ---------------------------------------------------------------------------
  // Expiration

  /** 23:59:59.999, the time of day every member expiration is pinned to. */
  const EndOfDay: int := MakeTime(23, 59, 59, 999)

  /** The day number reached by adding `value` units to day number `day`: days and
      weeks count whole days, months and years move the month or the year of its
      calendar date and keep the date, which MakeDay rolls over when the target month
      is short. */
  ghost function ShiftedDay(day: int, value: int, unit: DurationUnit): int
  {
    match unit
    case Day => day + value
    case Week => day + 7 * value
    case Month => var c := CalendarDate(day); MakeDay(c.year, c.month + value, c.date)
    case Year => var c := CalendarDate(day); MakeDay(c.year + value, c.month, c.date)
  }

  /** The expiration a member joining at `start` gets from a plan of `value` units:
      the last millisecond of the shifted day. */
  ghost function MembersExpiration(start: Time, value: int, unit: DurationUnit): Time
  {
    MakeDate(ShiftedDay(DayFromTime(start), value, unit), EndOfDay)
  }

  /** The unit switch shared by `calculateExpiration` and `updatePlan`: move `date` by
      `value` units with the setter that matches the unit, keeping its time of day. */
  method AddDuration(date: Time, value: int, unit: DurationUnit) returns (moved: Time)
    ensures DayFromTime(moved) == ShiftedDay(DayFromTime(date), value, unit)
    ensures TimeWithinDay(moved) == TimeWithinDay(date)
  {
    FieldsOfTime(date);
    match unit {
      case Day =>
        SetDateShifts(date, value);
        DayShift(date, value);
        moved := SetDate(date, DateFromTime(date) + value);
      case Week =>
        SetDateShifts(date, value * 7);
        DayShift(date, value * 7);
        moved := SetDate(date, DateFromTime(date) + value * 7);
      case Month =>
        MonthMoves(date, value);
        moved := SetMonth(date, MonthFromTime(date) + value);
      case Year =>
        YearMoves(date, value);
        moved := SetFullYear(date, YearFromTime(date) + value);
    }
  }

  /** `setMonth(getMonth() + n)` lands on the day a plan of n months reaches. */
  lemma MonthMoves(date: Time, n: int)
    ensures DayFromTime(SetMonth(date, MonthFromTime(date) + n)) == ShiftedDay(DayFromTime(date), n, Month)
  {
    assert ShiftedDay(DayFromTime(date), n, Month) == MakeDay(YearFromTime(date), MonthFromTime(date) + n, DateFromTime(date));
  }

  /** `setFullYear(getFullYear() + n)` lands on the day a plan of n years reaches. */
  lemma YearMoves(date: Time, n: int)
    ensures DayFromTime(SetFullYear(date, YearFromTime(date) + n)) == ShiftedDay(DayFromTime(date), n, Year)
  {
    assert ShiftedDay(DayFromTime(date), n, Year) == MakeDay(YearFromTime(date) + n, MonthFromTime(date), DateFromTime(date));
  }

  /** `calculateExpiration`: copy the start, move it by the plan's duration, then set
      the time to 23:59:59.999. */
  method CalculateExpiration(start: Time, value: int, unit: DurationUnit) returns (date: Time)
    ensures date == MembersExpiration(start, value, unit)
  {
    date := AddDuration(start, value, unit);
    date := SetHours(date, 23, 59, 59, 999);
  }

  /** A plan of n days ends on the n-th day after the start's day, at 23:59:59.999:
      there is no grace day, and the expiration comes less than n + 1 days after the
      start. */
  lemma DayPlanEnds(start: Time, n: int)
    ensures var r := MembersExpiration(start, n, Day);
            && DayFromTime(r) == DayFromTime(start) + n
            && TimeWithinDay(r) == MakeTime(23, 59, 59, 999)
            && start + n * MsPerDay <= r < start + (n + 1) * MsPerDay
  {
    var r := MembersExpiration(start, n, Day);
    assert r == (DayFromTime(start) + n) * MsPerDay + EndOfDay;
    assert start == DayFromTime(start) * MsPerDay + TimeWithinDay(start);
  }

  /** A plan of n weeks ends where a plan of 7n days ends. */
  lemma WeekIsSevenDays(start: Time, n: int)
    ensures MembersExpiration(start, n, Week) == MembersExpiration(start, 7 * n, Day)
  {
  }

  /** The expiration falls on the shifted day, at 23:59:59.999. */
  lemma ExpirationDay(start: Time, value: int, unit: DurationUnit)
    ensures DayFromTime(MembersExpiration(start, value, unit)) == ShiftedDay(DayFromTime(start), value, unit)
    ensures TimeWithinDay(MembersExpiration(start, value, unit)) == MakeTime(23, 59, 59, 999)
  {
  }

  /** A plan of n months ends on the day MakeDay gives for the start's date in the
      month n months later; Members.MonthPlanDate reads that day back as a date. */
  lemma MonthPlanDay(start: Time, n: int, c: Civil)
    requires DateOf(start) == c
    ensures DayFromTime(MembersExpiration(start, n, Month)) == MakeDay(c.year, c.month + n, c.date)
  {
    ExpirationDay(start, n, Month);
  }

  /** A plan of n years ends on the day MakeDay gives for the start's month and date
      n years later; Calendar.MakeDayDate reads that day back as a date. */
  lemma YearPlanDay(start: Time, n: int, c: Civil)
    requires DateOf(start) == c
    ensures DayFromTime(MembersExpiration(start, n, Year)) == MakeDay(c.year + n, c.month, c.date)
  {
    ExpirationDay(start, n, Year);
  }

  /** A plan of n months ends on the start's date n months later, or, when that month
      is too short, on the matching date of the month after it: the date rolls over
      rather than being clamped to the month's last day. */
  lemma MonthPlanDate(start: Time, n: int, c: Civil, year: int, month: int)
    requires DateOf(start) == c
    requires 12 * year + month == 12 * c.year + c.month + n && 0 <= month < 12
    ensures DateOf(MembersExpiration(start, n, Month)) == LandsOn(year, month, c.date)
  {
    MonthPlanDay(start, n, c);
    assert MakeDay(c.year, c.month + n, c.date) == MakeDay(year, month, c.date);
    DateOfMakeDay(MembersExpiration(start, n, Month), year, month, c.date);
  }

  /** A plan of n years ends on the start's month and date n years later; February 29
      rolls over to March 1 when that year is not a leap year. */
  lemma YearPlanDate(start: Time, n: int, c: Civil)
    requires DateOf(start) == c
    ensures DateOf(MembersExpiration(start, n, Year)) == LandsOn(c.year + n, c.month, c.date)
  {
    assert ValidCivil(c);
    YearPlanDay(start, n, c);
    DateOfMakeDay(MembersExpiration(start, n, Year), c.year + n, c.month, c.date);
  }

  /** A plan of n >= 0 months does not end before the day it starts. */
  lemma MonthPlanNotEarlier(start: Time, n: int)
    requires n >= 0
    ensures DayFromTime(start) <= DayFromTime(MembersExpiration(start, n, Month))
  {
    var c := DateOf(start);
    MonthPlanDay(start, n, c);
    AddMonthsNotEarlier(c.year, c.month, c.date, n);
  }

  /** A plan of n >= 0 years does not end before the day it starts. */
  lemma YearPlanNotEarlier(start: Time, n: int)
    requires n >= 0
    ensures DayFromTime(start) <= DayFromTime(MembersExpiration(start, n, Year))
  {
    var c := DateOf(start);
    YearPlanDay(start, n, c);
    AddYearsNotEarlier(c.year, c.month, c.date, n);
  }

  /** For a non-negative duration the expiration is never before the start, and the
      start's time of day never survives: only its day matters. */
  lemma ExpirationNotBeforeStart(start: Time, value: int, unit: DurationUnit)
    requires value >= 0
    ensures DayFromTime(start) <= DayFromTime(MembersExpiration(start, value, unit))
    ensures start <= MembersExpiration(start, value, unit)
  {
    match unit {
      case Day =>
      case Week =>
      case Month => MonthPlanNotEarlier(start, value);
      case Year => YearPlanNotEarlier(start, value);
    }
    ExpirationDay(start, value, unit);
    EndOfDayNotBefore(start, ShiftedDay(DayFromTime(start), value, unit));
  }

  /** Any instant is at or before 23:59:59.999 of its own day or of a later one. */
  lemma EndOfDayNotBefore(t: Time, day: int)
    requires DayFromTime(t) <= day
    ensures t <= MakeDate(day, EndOfDay)
  {
    assert t == DayFromTime(t) * MsPerDay + TimeWithinDay(t);
  }

  /** Two starts on the same day give the same expiration, at 23:59:59.999. */
  lemma ExpirationIgnoresTimeOfDay(s1: Time, s2: Time, value: int, unit: DurationUnit)
    requires DayFromTime(s1) == DayFromTime(s2)
    ensures MembersExpiration(s1, value, unit) == MembersExpiration(s2, value, unit)
    ensures TimeWithinDay(MembersExpiration(s1, value, unit)) == MakeTime(23, 59, 59, 999)
  {
    ExpirationDay(s1, value, unit);
  }

  // ---------------------------------------------------------------------------
  // Status

  datatype Status = Expired | Expiring | Active

  /** Math.ceil(diffMs / 86 400 000) for an integer number of milliseconds. */
  function CeilDays(diffMs: int): (days: int)
    ensures (days - 1) * MsPerDay < diffMs <= days * MsPerDay
  {
    -((-diffMs) / MsPerDay)
  }

  /** `determineMemberStatus`, with the clock read passed in as `now`: the whole days
      left, rounded up, decide. A membership is Expired only a full day after its
      expiration; within that day it is still Expiring. */
  function DetermineMemberStatus(expiration: Time, now: Time): (s: Status)
    ensures s == Expired <==> now - expiration >= MsPerDay
    ensures s == Expiring <==> -MsPerDay < expiration - now <= 7 * MsPerDay
    ensures s == Active <==> expiration - now > 7 * MsPerDay
  {
    var diffDays := CeilDays(expiration - now);
    if diffDays < 0 then Expired
    else if diffDays <= 7 then Expiring
    else Active
  }

  /** Statuses in the order time moves them through. */
  function StatusRank(s: Status): int
  {
    match s
    case Active => 0
    case Expiring => 1
    case Expired => 2
  }

  /** As `now` grows the status only moves from Active to Expiring to Expired. */
  lemma StatusMonotone(expiration: Time, now1: Time, now2: Time)
    requires now1 <= now2
    ensures StatusRank(DetermineMemberStatus(expiration, now1))
              <= StatusRank(DetermineMemberStatus(expiration, now2))
  {
  }

  /** Exactly seven days before expiration the status is Expiring; one millisecond
      earlier it is Active. */
  lemma SevenDayBoundary(expiration: Time)
    ensures DetermineMemberStatus(expiration, expiration - 7 * MsPerDay) == Expiring
    ensures DetermineMemberStatus(expiration, expiration - 7 * MsPerDay - 1) == Active
  {
  }

  /** An expiration that passed less than a day ago is still reported Expiring, and
      one that passed a full day ago is Expired. */
  lemma ExpiringForADayAfterExpiry(expiration: Time, now: Time)
    requires expiration < now
    ensures DetermineMemberStatus(expiration, now) == Expiring <==> now < expiration + MsPerDay
    ensures DetermineMemberStatus(expiration, now) == Expired <==> now >= expiration + MsPerDay
  {
  }

  // ---------------------------------------------------------------------------
  // Requests

  /** The body of a create or update request. `None` stands for a field that is absent;
      for `dob` and `joinDate` it also stands for an empty string, which the handlers
      treat as missing. Dates are already parsed into time values. */
  datatype MemberBody = MemberBody(
    name: Option<string>,
    email: Option<string>,
    phone: Option<string>,
    dob: Option<Time>,
    address: Option<string>,
    profilePhoto: Option<string>,
    joinDate: Option<Time>,
    planId: Option<int>)

  /** JavaScript truthiness of a string field. */
  predicate Present(s: Option<string>)
  {
    s.Some? && s.value != ""
  }

  /** The fields both requests demand: name, email, phone, dob and a non-zero planId. */
  predicate RequiredPresent(body: MemberBody)
  {
    Present(body.name) && Present(body.email) && Present(body.phone)
    && body.dob.Some? && body.planId.Some? && body.planId.value != 0
  }

  /** `createMember`, with the clock read passed in as `now` and the id the store
      generates passed in as `freshId`. */
  method CreateMember(db: Database, body: MemberBody, freshId: string, now: Time)
      returns (r: Result<Member, Failure>)
    requires db.Valid()
    modifies db
    ensures db.Valid()
    ensures db.plans == old(db.plans) && db.attendance == old(db.attendance)
    ensures r == Err(PayloadInvalid) <==> !RequiredPresent(body)
    ensures r == Err(PlanNotFound) <==> RequiredPresent(body) && body.planId.value !in db.plans
    ensures r == Err(StoreRejected) <==>
              RequiredPresent(body) && body.planId.value in db.plans && freshId in old(db.members)
    ensures r.Ok? <==> RequiredPresent(body) && body.planId.value in old(db.plans) && freshId !in old(db.members)
    ensures r.Err? ==> db.members == old(db.members)
    ensures r.Ok? ==>
              var m := r.value;
              && m.planId in db.plans
              && db.members == old(db.members)[freshId := m]
              && m.id == freshId
              && Some(m.name) == body.name && Some(m.email) == body.email
              && Some(m.phone) == body.phone && Some(m.dob) == body.dob
              && m.address == body.address && m.profilePhoto == body.profilePhoto
              && Some(m.planId) == body.planId
              && m.joinDate == (if body.joinDate.Some? then body.joinDate.value else now)
              && var plan := db.plans[m.planId];
                 m.expirationDate == MembersExpiration(m.joinDate, plan.durationValue, plan.durationUnit)
  {
    if !RequiredPresent(body) {
      return Err(PayloadInvalid);
    }
    var planId := body.planId.value;
    if planId !in db.plans {
      return Err(PlanNotFound);
    }
    var plan := db.plans[planId];
    var startDate := if body.joinDate.Some? then body.joinDate.value else now;
    var expirationDate := CalculateExpiration(startDate, plan.durationValue, plan.durationUnit);
    if freshId in db.members {
      return Err(StoreRejected);
    }
    var member := Member(freshId, body.name.value, body.email.value, body.phone.value, body.dob.value,
                         body.address, body.profilePhoto, startDate, expirationDate, planId);
    db.members := db.members[freshId := member];
    r := Ok(member);
  }

  /** `updateMember`: the body overwrites the member's details; the join date changes
      only when the body has one; the expiration is recomputed, from the final join
      date, only when the body names a different plan. */
  method UpdateMember(db: Database, id: string, body: MemberBody) returns (r: Result<Member, Failure>)
    requires db.Valid()
    modifies db
    ensures db.Valid()
    ensures db.plans == old(db.plans) && db.attendance == old(db.attendance)
    ensures r == Err(PayloadInvalid) <==> !RequiredPresent(body)
    ensures r == Err(MemberNotFound) <==> RequiredPresent(body) && id !in old(db.members)
    ensures r == Err(PlanNotFound) <==>
              && RequiredPresent(body) && id in old(db.members)
              && body.planId.value != old(db.members)[id].planId && body.planId.value !in db.plans
    ensures r.Ok? <==>
              && RequiredPresent(body) && id in old(db.members)
              && (body.planId.value == old(db.members)[id].planId || body.planId.value in old(db.plans))
    ensures r.Err? ==> db.members == old(db.members)
    ensures r.Ok? ==>
              var m, existing := r.value, old(db.members)[id];
              && db.members == old(db.members)[id := m]
              && m.id == id
              && Some(m.name) == body.name && Some(m.email) == body.email
              && Some(m.phone) == body.phone && Some(m.dob) == body.dob
              && m.address == (if body.address.Some? then body.address else existing.address)
              && m.profilePhoto == (if body.profilePhoto.Some? then body.profilePhoto else existing.profilePhoto)
              && m.joinDate == (if body.joinDate.Some? then body.joinDate.value else existing.joinDate)
              && Some(m.planId) == body.planId
              && (m.planId == existing.planId ==> m.expirationDate == existing.expirationDate)
              && (m.planId != existing.planId ==>
                    && m.planId in db.plans
                    && var plan := db.plans[m.planId];
                    m.expirationDate == MembersExpiration(m.joinDate, plan.durationValue, plan.durationUnit))
  {
    if !RequiredPresent(body) {
      return Err(PayloadInvalid);
    }
    if id !in db.members {
      return Err(MemberNotFound);
    }
    var existing := db.members[id];
    var finalJoinDate := existing.joinDate;
    var finalExpirationDate := existing.expirationDate;
    var finalPlanId := existing.planId;
    if body.joinDate.Some? {
      finalJoinDate := body.joinDate.value;
    }
    var planId := body.planId.value;
    if planId != existing.planId {
      if planId !in db.plans {
        return Err(PlanNotFound);
      }
      var plan := db.plans[planId];
      finalExpirationDate := CalculateExpiration(finalJoinDate, plan.durationValue, plan.durationUnit);
      finalPlanId := planId;
    }
    var updated := Member(id, body.name.value, body.email.value, body.phone.value, body.dob.value,
                          if body.address.Some? then body.address else existing.address,
                          if body.profilePhoto.Some? then body.profilePhoto else existing.profilePhoto,
                          finalJoinDate, finalExpirationDate, finalPlanId);
    db.members := db.members[id := updated];
    r := Ok(updated);
  }
}
