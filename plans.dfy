/**
  Editing a plan: the new terms are stored and every member of the plan gets its
  expiration re-derived, inside one transaction. The re-derivation uses its own
  formula, not the one members get when they join or change plan: it starts from the
  local midnight of the join date, adds the duration and then one more day, and ends
  at 23:59:00.000 UTC.
*/
module Plans {
  import opened Wrappers
  import opened Calendar
  import opened Store
  import opened Members

  /** 23:59:00.000, the time of day a re-derived expiration is pinned to. */
  const GraceEnd: int := MakeTime(23, 59, 0, 0)

  /** The day of `new Date(start.getFullYear(), start.getMonth(), start.getDate())`,
      midnight of the join date's calendar day: the join date's own day, except that
      the Date constructor reads a year from 0 to 99 as 1900 + year. */
  ghost function MidnightDay(joinDate: Time): int
  {
    var c := DateOf(joinDate);
    if 0 <= c.year <= 99 then MakeDay(1900 + c.year, c.month, c.date) else DayFromTime(joinDate)
  }

  /** The expiration `updatePlan` gives a member who joined at `joinDate`, for a plan
      of `value` units: the day the duration reaches from the join date's midnight,
      plus one grace day, at 23:59:00.000. */
  ghost function CascadeExpiration(joinDate: Time, value: int, unit: DurationUnit): Time
  {
    MakeDate(ShiftedDay(MidnightDay(joinDate), value, unit) + 1, GraceEnd)
  }

  /** The loop body of `updatePlan` for one member: build the join date's midnight,
      move it by the duration, add one day, then set the UTC time to 23:59:00.000. */
  method CascadeDate(joinDate: Time, value: int, unit: DurationUnit) returns (expired: Time)
    ensures expired == CascadeExpiration(joinDate, value, unit)
  {
    var start := joinDate;
    expired := DateFromComponents(YearFromTime(start), MonthFromTime(start), DateFromTime(start));
    MidnightOfFields(start);
    expired := AddDuration(expired, value, unit);
    NextDayAtGraceEnd(expired);
    expired := SetDate(expired, DateFromTime(expired) + 1);
    expired := SetHours(expired, 23, 59, 0, 0);
  }

  /** The Date built from the join date's fields is midnight of MidnightDay. */
  lemma MidnightOfFields(joinDate: Time)
    ensures DayFromTime(DateFromComponents(YearFromTime(joinDate), MonthFromTime(joinDate), DateFromTime(joinDate)))
            == MidnightDay(joinDate)
  {
    FieldsOfTime(joinDate);
  }

  /** `setDate(getDate() + 1)` then `setUTCHours(23, 59, 0, 0)`: 23:59:00.000 of the
      next day. */
  lemma NextDayAtGraceEnd(t: Time)
    ensures SetHours(SetDate(t, DateFromTime(t) + 1), 23, 59, 0, 0) == MakeDate(DayFromTime(t) + 1, GraceEnd)
  {
    SetDateShifts(t, 1);
    DayShift(t, 1);
  }

  /** One iteration of the loop of `updatePlan`: re-derive the member's expiration
      and write it back. */
  method CascadeOne(m: Member, value: int, unit: DurationUnit) returns (updated: Member)
    ensures updated == CascadeFn(value, unit)(m)
  {
    var expired := CascadeDate(m.joinDate, value, unit);
    updated := m.(expirationDate := expired);
  }

  /** A member after the cascade: only the expiration is re-derived. */
  ghost function CascadeMember(m: Member, value: int, unit: DurationUnit): Member
  {
    m.(expirationDate := CascadeExpiration(m.joinDate, value, unit))
  }

  /** CascadeMember as a function value, the form Rederive takes. */
  ghost function CascadeFn(value: int, unit: DurationUnit): Member -> Member
  {
    m => CascadeMember(m, value, unit)
  }

  /** The members table after plan `planId` gets a duration of `value` units. */
  ghost function CascadeMembers(members: map<string, Member>, planId: int, value: int, unit: DurationUnit)
    : map<string, Member>
  {
    Rederive(members, planId, members.Keys, CascadeFn(value, unit))
  }

  /** The members table once the members with ids in `done` have been visited, each
      member of plan `planId` among them replaced by `f` of it. */
  ghost function Rederive(members: map<string, Member>, planId: int, done: set<string>,
                          f: Member -> Member): map<string, Member>
  {
    map k | k in members :: if k in done && members[k].planId == planId then f(members[k]) else members[k]
  }

  /** Before any visit the table is unchanged. */
  lemma NoneVisited(members: map<string, Member>, planId: int, f: Member -> Member)
    ensures Rederive(members, planId, {}, f) == members
  {
  }

  /** Visiting one more member replaces it if it belongs to the plan. */
  lemma VisitOne(members: map<string, Member>, planId: int, done: set<string>, f: Member -> Member, k: string)
    requires k in members && k !in done
    ensures Rederive(members, planId, done + {k}, f)
            == Rederive(members, planId, done, f)[k := if members[k].planId == planId then f(members[k]) else members[k]]
  {
  }

  /** The body of an `updatePlan` request. `None` stands for a field that is absent. */
  datatype PlanBody = PlanBody(
    name: Option<string>,
    price: Option<int>,
    durationValue: Option<int>,
    durationUnit: Option<string>)

  /** JavaScript truthiness of a number field: present and not 0. */
  predicate NonZero(n: Option<int>)
  {
    n.Some? && n.value != 0
  }

  /** All four fields are truthy; a price or a duration of 0 is not. */
  predicate PlanFieldsPresent(body: PlanBody)
  {
    Present(body.name) && NonZero(body.price) && NonZero(body.durationValue) && Present(body.durationUnit)
  }

  /** `updatePlan` on plan `id`. The store checks the unit against its enumeration
      before it runs anything, so an unknown unit fails first; an unknown plan id makes
      the plan update throw. Either failure aborts the transaction, so nothing is
      written. Otherwise the plan is replaced and every member of the plan is given
      the re-derived expiration; the member writes are collected and committed at the
      end, as the transaction commits them. */
  method UpdatePlan(db: Database, id: int, body: PlanBody) returns (r: Result<Plan, Failure>)
    requires db.Valid()
    modifies db
    ensures db.Valid()
    ensures db.attendance == old(db.attendance)
    ensures r == Err(PayloadInvalid) <==> !PlanFieldsPresent(body)
    ensures r == Err(StoreError) <==>
              PlanFieldsPresent(body) && ParseUnit(body.durationUnit.value).None?
    ensures r == Err(StoreRejected) <==>
              && PlanFieldsPresent(body) && ParseUnit(body.durationUnit.value).Some?
              && id !in old(db.plans)
    ensures r.Ok? <==> PlanFieldsPresent(body) && ParseUnit(body.durationUnit.value).Some? && id in old(db.plans)
    ensures r.Err? ==> db.plans == old(db.plans) && db.members == old(db.members)
    ensures r.Ok? ==>
              var p := r.value;
              && p == Plan(id, body.name.value, body.price.value, body.durationValue.value,
                           ParseUnit(body.durationUnit.value).value)
              && db.plans == old(db.plans)[id := p]
              && db.members == CascadeMembers(old(db.members), id, p.durationValue, p.durationUnit)
  {
    if !PlanFieldsPresent(body) {
      return Err(PayloadInvalid);
    }
    var unit := ParseUnit(body.durationUnit.value);
    if unit.None? {
      return Err(StoreError);
    }
    if id !in db.plans {
      return Err(StoreRejected);
    }
    var value := body.durationValue.value;
    var updatedPlan := Plan(id, body.name.value, body.price.value, value, unit.value);

    var members := CascadeAll(db.members, id, value, unit.value);
    db.plans := db.plans[id := updatedPlan];
    db.members := members;
    r := Ok(updatedPlan);
  }

  /** The loop of `updatePlan`: every member of plan `planId` gets the re-derived
      expiration, one member at a time. */
  method CascadeAll(members: map<string, Member>, planId: int, value: int, unit: DurationUnit)
      returns (updated: map<string, Member>)
    ensures updated == CascadeMembers(members, planId, value, unit)
  {
    updated := members;
    var pending := members.Keys;
    ghost var done: set<string> := {};
    NoneVisited(members, planId, CascadeFn(value, unit));
    while pending != {}
      invariant done + pending == members.Keys && done !! pending
      invariant updated == Rederive(members, planId, done, CascadeFn(value, unit))
      decreases pending
    {
      var k :| k in pending;
      updated := Visit(members, planId, value, unit, done, updated, k);
      done := done + {k};
      pending := pending - {k};
    }
  }

  /** One iteration of the loop: the member with id `k` is re-derived when it belongs to
      the plan and left alone otherwise. */
  method Visit(members: map<string, Member>, planId: int, value: int, unit: DurationUnit,
               ghost done: set<string>, updated: map<string, Member>, k: string)
      returns (next: map<string, Member>)
    requires k in members && k !in done
    requires updated == Rederive(members, planId, done, CascadeFn(value, unit))
    ensures next == Rederive(members, planId, done + {k}, CascadeFn(value, unit))
  {
    VisitOne(members, planId, done, CascadeFn(value, unit), k);
    next := updated;
    if updated[k].planId == planId {
      var member := CascadeOne(updated[k], value, unit);
      next := updated[k := member];
    }
  }

  // ---------------------------------------------------------------------------
  // Properties of the cascade

  /** The cascade changes members of the edited plan only, and of those only the
      expiration, which it sets to the re-derived one. */
  lemma CascadeTouchesOnlyExpiration(members: map<string, Member>, planId: int, value: int,
                                     unit: DurationUnit, k: string)
    requires k in members
    ensures k in CascadeMembers(members, planId, value, unit)
    ensures var m, n := members[k], CascadeMembers(members, planId, value, unit)[k];
            && (m.planId != planId ==> n == m)
            && (m.planId == planId ==>
                  && n.expirationDate == CascadeExpiration(m.joinDate, value, unit)
                  && n.(expirationDate := m.expirationDate) == m)
    ensures CascadeMembers(members, planId, value, unit).Keys == members.Keys
  {
  }

  /** Running the cascade a second time with the same terms changes nothing: the
      re-derivation reads only the join date and the plan, which it never writes. */
  lemma CascadeIdempotent(members: map<string, Member>, planId: int, value: int, unit: DurationUnit)
    ensures var once := CascadeMembers(members, planId, value, unit);
            CascadeMembers(once, planId, value, unit) == once
  {
    var f := CascadeFn(value, unit);
    forall m: Member
      ensures f(m).planId == m.planId && f(f(m)) == f(m)
    {
      assert f(m).joinDate == m.joinDate;
    }
    RederiveIdempotent(members, planId, f);
  }

  /** Rederiving twice is rederiving once when `f` keeps the plan and is idempotent. */
  lemma RederiveIdempotent(members: map<string, Member>, planId: int, f: Member -> Member)
    requires forall m: Member :: f(m).planId == m.planId && f(f(m)) == f(m)
    ensures var once := Rederive(members, planId, members.Keys, f);
            Rederive(once, planId, once.Keys, f) == once
  {
  }

  /** Two join dates on the same day get the same re-derived expiration: the time of
      day of the join date plays no part. */
  lemma CascadeIgnoresTimeOfDay(j1: Time, j2: Time, value: int, unit: DurationUnit)
    requires DayFromTime(j1) == DayFromTime(j2)
    ensures CascadeExpiration(j1, value, unit) == CascadeExpiration(j2, value, unit)
    ensures TimeWithinDay(CascadeExpiration(j1, value, unit)) == MakeTime(23, 59, 0, 0)
  {
    assert DateOf(j1) == DateOf(j2);
    assert MidnightDay(j1) == MidnightDay(j2);
  }

  /** In the years 0 to 99, the midnight the cascade starts from is 1900 years after
      the join date; February 29 of year 0 becomes March 1, 1900. */
  lemma EarlyYearMidnight(joinDate: Time, c: Civil)
    requires DateOf(joinDate) == c && 0 <= c.year <= 99
    ensures CalendarDate(MidnightDay(joinDate)) == LandsOn(1900 + c.year, c.month, c.date)
  {
    MakeDayDate(1900 + c.year, c.month, c.date);
  }

  /** Outside the years 0 to 99 the re-derived expiration is the one a member gets on
      joining plus one grace day, at 23:59:00.000 instead of 23:59:59.999: a day less
      59 999 milliseconds later. */
  lemma CascadeAddsGraceDay(joinDate: Time, value: int, unit: DurationUnit)
    requires !(0 <= DateOf(joinDate).year <= 99)
    ensures DayFromTime(CascadeExpiration(joinDate, value, unit))
            == DayFromTime(MembersExpiration(joinDate, value, unit)) + 1
    ensures CascadeExpiration(joinDate, value, unit)
            == MembersExpiration(joinDate, value, unit) + MsPerDay - 59_999
  {
    ExpirationDay(joinDate, value, unit);
  }

  /** Outside the years 0 to 99, a duration of value >= 0 re-derives an expiration
      later than the join date. */
  lemma CascadeAfterJoin(joinDate: Time, value: int, unit: DurationUnit)
    requires value >= 0 && !(0 <= DateOf(joinDate).year <= 99)
    ensures joinDate < CascadeExpiration(joinDate, value, unit)
  {
    ExpirationNotBeforeStart(joinDate, value, unit);
    CascadeAddsGraceDay(joinDate, value, unit);
  }

  /** Joining on 2024-01-15 a plan of one month: the member gets 2024-02-15 at
      23:59:59.999 on joining, and 2024-02-16 at 23:59:00.000 when the plan is edited. */
  lemma JoinMidJanuaryForAMonth(joinDate: Time)
    requires DateOf(joinDate) == Civil(2024, 0, 15)
    ensures DateOf(MembersExpiration(joinDate, 1, Month)) == Civil(2024, 1, 15)
    ensures TimeWithinDay(MembersExpiration(joinDate, 1, Month)) == MakeTime(23, 59, 59, 999)
    ensures DateOf(CascadeExpiration(joinDate, 1, Month)) == Civil(2024, 1, 16)
    ensures TimeWithinDay(CascadeExpiration(joinDate, 1, Month)) == MakeTime(23, 59, 0, 0)
  {
    var c := Civil(2024, 0, 15);
    MonthPlanDay(joinDate, 1, c);
    MakeDayDate(2024, 1, 15);
    CascadeAddsGraceDay(joinDate, 1, Month);
    DateOfMakeDay(CascadeExpiration(joinDate, 1, Month), 2024, 1, 16);
  }
}
