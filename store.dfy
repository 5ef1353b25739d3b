/**
  The persistent state the membership code works on: plans, members and attendance
  rows, as the Prisma client sees them. A request or a scan changes this state
  through the methods of the other modules; the store itself only holds it.
*/
module Store {
  import opened Wrappers
  import opened Calendar

  /** The `durationUnit` enumeration of a plan. */
  datatype DurationUnit = Day | Week | Month | Year

  /** The enumeration value's name as it travels in a request body. */
  function UnitName(u: DurationUnit): string
  {
    match u
    case Day => "Day"
    case Week => "Week"
    case Month => "Month"
    case Year => "Year"
  }

  /** Reading a unit from a request body: only the four enumeration names are units;
      the store refuses any other string. */
  function ParseUnit(s: string): (r: Option<DurationUnit>)
    ensures r.Some? ==> UnitName(r.value) == s
    ensures r.None? ==> forall u :: UnitName(u) != s
  {
    if s == "Day" then Some(Day)
    else if s == "Week" then Some(Week)
    else if s == "Month" then Some(Month)
    else if s == "Year" then Some(Year)
    else None
  }

  /** Reading a unit name gives the unit back. */
  lemma ParseUnitName(u: DurationUnit)
    ensures ParseUnit(UnitName(u)) == Some(u)
  {
  }

  datatype Plan = Plan(id: int, name: string, price: int, durationValue: int, durationUnit: DurationUnit)

  datatype Member = Member(
    id: string,
    name: string,
    email: string,
    phone: string,
    dob: Time,
    address: Option<string>,
    profilePhoto: Option<string>,
    joinDate: Time,
    expirationDate: Time,
    planId: int)

  datatype Attendance = Attendance(memberId: string, checkInTime: Time)

  /** Why a request fails. The first four are answered with status 400, StoreError
      with status 500. */
  datatype Failure =
    | PayloadInvalid    // a required body field is missing or falsy
    | PlanNotFound      // the plan named by the body does not exist
    | MemberNotFound    // the member named by the path does not exist
    | StoreRejected     // the store refused the write: unknown record or duplicate key
    | StoreError        // the store refused the request for a reason the controller does
                        // not recognise, such as a value outside an enumeration

  /** Every member is filed under its own id. */
  ghost predicate MembersKeyed(members: map<string, Member>)
  {
    forall k :: k in members ==> members[k].id == k
  }

  /** Every plan is filed under its own id. */
  ghost predicate PlansKeyed(plans: map<int, Plan>)
  {
    forall k :: k in plans ==> plans[k].id == k
  }

  /** Every member refers to an existing plan. */
  ghost predicate PlansExist(members: map<string, Member>, plans: map<int, Plan>)
  {
    forall k :: k in members ==> members[k].planId in plans
  }

  /** The three tables. */
  class Database {
    var members: map<string, Member>
    var plans: map<int, Plan>
    var attendance: seq<Attendance>

    ghost predicate Valid()
      reads this
    {
      MembersKeyed(members) && PlansKeyed(plans) && PlansExist(members, plans)
    }

    constructor (plans: map<int, Plan>)
      requires PlansKeyed(plans)
      ensures Valid()
      ensures this.members == map[] && this.plans == plans && this.attendance == []
    {
      this.members := map[];
      this.plans := plans;
      this.attendance := [];
    }
  }
}
