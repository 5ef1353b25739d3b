/**
  The access gateway: a scanner sends a member id, and the gateway answers with a
  grant or a denial. Repeated scans of one id within 3000 ms of the last accepted
  scan are dropped without an answer. A grant records one attendance row.
*/
module Scanner {
  import opened Wrappers
  import opened Calendar
  import opened Store
  import opened Members

  /** The debounce window, in milliseconds. */
  const DebounceMs: int := 3000

  /** Why a scan is denied. */
  datatype Denial =
    | UnknownMember                // MEMBER_NOT_FOUND
    | MembershipExpired(name: string)  // MEMBERSHIP_EXPIRED, with the member's name

  /** The message sent back for an accepted scan. `plan` is the name of the member's
      plan, absent when the plan record is missing. */
  datatype Reply =
    | AccessDenied(reason: Denial)
    | AccessGranted(id: string, name: string, expirationDate: Time, plan: Option<string>, checkInTime: Time)

  /** A scan of `id` at `now` is dropped when the id was last accepted less than
      3000 ms earlier. A stored time of 0 is falsy and counts as no earlier scan. */
  predicate Debounced(lastScan: map<string, Time>, id: string, now: Time)
  {
    id in lastScan && lastScan[id] != 0 && now - lastScan[id] < DebounceMs
  }

  /** The debounce table after a scan of `id` at `now`: an accepted scan records `now`,
      whether or not the id belongs to a member; a dropped scan changes nothing. */
  function Gate(lastScan: map<string, Time>, id: string, now: Time): (next: map<string, Time>)
    ensures Debounced(lastScan, id, now) ==> next == lastScan
    ensures !Debounced(lastScan, id, now) ==> id in next && next[id] == now
    ensures next.Keys == lastScan.Keys + {id} || next == lastScan
    ensures forall k :: k != id ==> (k in next <==> k in lastScan)
    ensures forall k :: k != id && k in lastScan ==> next[k] == lastScan[k]
  {
    if Debounced(lastScan, id, now) then lastScan else lastScan[id := now]
  }

  /** The answer to an accepted scan of `id` at `now`. A member whose expiration is
      earlier than `now` is denied; one whose expiration is `now` or later is granted. */
  function Decide(members: map<string, Member>, plans: map<int, Plan>, id: string, now: Time): (reply: Reply)
    ensures reply == AccessDenied(UnknownMember) <==> id !in members
    ensures reply.AccessDenied? && reply.reason.MembershipExpired? <==>
              id in members && members[id].expirationDate < now
    ensures reply.AccessGranted? <==> id in members && now <= members[id].expirationDate
    ensures reply.AccessDenied? && reply.reason.MembershipExpired? ==> reply.reason.name == members[id].name
    ensures reply.AccessGranted? ==>
              var m := members[id];
              && reply.id == m.id && reply.name == m.name && reply.expirationDate == m.expirationDate
              && reply.checkInTime == now
              && (m.planId in plans <==> reply.plan.Some?)
              && (m.planId in plans ==> reply.plan.value == plans[m.planId].name)
  {
    if id !in members then AccessDenied(UnknownMember)
    else
      var m := members[id];
      if m.expirationDate < now then AccessDenied(MembershipExpired(m.name))
      else
        var plan := if m.planId in plans then Some(plans[m.planId].name) else None;
        AccessGranted(m.id, m.name, m.expirationDate, plan, now)
  }

  /** The gateway's state: the time of the last accepted scan of each id. */
  class ScanGate {
    var lastScan: map<string, Time>

    constructor ()
      ensures lastScan == map[]
    {
      lastScan := map[];
    }

    /** The message handler, with the clock read passed in as `now`. A dropped scan
        returns no reply and writes nothing; an accepted one records `now`, reads the
        member and its plan, and on a grant adds one attendance row. */
    method OnMessage(db: Database, memberId: string, now: Time) returns (reply: Option<Reply>)
      requires db.Valid()
      modifies this, db
      ensures db.Valid()
      ensures db.members == old(db.members) && db.plans == old(db.plans)
      ensures lastScan == Gate(old(lastScan), memberId, now)
      ensures reply.None? <==> Debounced(old(lastScan), memberId, now)
      ensures reply.Some? ==> reply.value == Decide(db.members, db.plans, memberId, now)
      ensures db.attendance == old(db.attendance) + Attended(reply, memberId, now)
    {
      if memberId in lastScan && lastScan[memberId] != 0 && now - lastScan[memberId] < DebounceMs {
        return None;
      }
      lastScan := lastScan[memberId := now];
      var response;
      if memberId !in db.members {
        response := AccessDenied(UnknownMember);
      } else {
        var member := db.members[memberId];
        if member.expirationDate < now {
          response := AccessDenied(MembershipExpired(member.name));
        } else {
          db.attendance := db.attendance + [Attendance(member.id, now)];
          var plan := if member.planId in db.plans then Some(db.plans[member.planId].name) else None;
          response := AccessGranted(member.id, member.name, member.expirationDate, plan, now);
        }
      }
      reply := Some(response);
    }
  }

  /** The attendance rows a scan adds: one row for a grant, none otherwise. */
  function Attended(reply: Option<Reply>, memberId: string, now: Time): (rows: seq<Attendance>)
    ensures |rows| <= 1
    ensures |rows| == 1 <==> reply.Some? && reply.value.AccessGranted?
  {
    if reply.Some? && reply.value.AccessGranted? then [Attendance(memberId, now)] else []
  }

  // ---------------------------------------------------------------------------
  // Properties of one scan

  /** A scan exactly 3000 ms after the last accepted one is accepted; one 2999 ms after
      it is dropped. */
  lemma DebounceBoundary(lastScan: map<string, Time>, id: string)
    requires id in lastScan && lastScan[id] != 0
    ensures !Debounced(lastScan, id, lastScan[id] + 3000)
    ensures Debounced(lastScan, id, lastScan[id] + 2999)
  {
  }

  /** A stored time of 0 never drops a scan. */
  lemma ZeroIsNoScan(lastScan: map<string, Time>, id: string, now: Time)
    requires id in lastScan && lastScan[id] == 0
    ensures !Debounced(lastScan, id, now)
    ensures Gate(lastScan, id, now)[id] == now
  {
  }

  /** An expiration equal to the scan time is still granted; one a millisecond earlier
      is denied. */
  lemma ExpiringNowIsGranted(members: map<string, Member>, plans: map<int, Plan>, id: string)
    requires id in members
    ensures Decide(members, plans, id, members[id].expirationDate).AccessGranted?
    ensures Decide(members, plans, id, members[id].expirationDate + 1)
            == AccessDenied(MembershipExpired(members[id].name))
  {
  }

  /** The gateway and the reported status disagree for a day: during the day after the
      expiration the status is still Expiring while a scan is denied, and a scan is
      never granted once the status is Expired. */
  lemma DeniedWhileStillExpiring(members: map<string, Member>, plans: map<int, Plan>, id: string, now: Time)
    requires id in members
    ensures var exp := members[id].expirationDate;
            exp < now < exp + MsPerDay ==>
              && Decide(members, plans, id, now).AccessDenied?
              && DetermineMemberStatus(exp, now) == Expiring
    ensures Decide(members, plans, id, now).AccessGranted? ==>
              DetermineMemberStatus(members[id].expirationDate, now) != Expired
  {
  }

  // ---------------------------------------------------------------------------
  // Properties of a run of scans

  /** One scan as the gateway receives it. */
  datatype Scan = Scan(id: string, time: Time)

  /** The debounce table after a run of scans, starting from `lastScan`. */
  function RunGate(lastScan: map<string, Time>, scans: seq<Scan>): map<string, Time>
    decreases |scans|
  {
    if scans == [] then lastScan
    else
      var last := scans[|scans| - 1];
      Gate(RunGate(lastScan, scans[..|scans| - 1]), last.id, last.time)
  }

  /** Scan i of the run is accepted: the table as the earlier scans left it does not
      drop it. */
  predicate Accepted(lastScan: map<string, Time>, scans: seq<Scan>, i: int)
    requires 0 <= i < |scans|
  {
    !Debounced(RunGate(lastScan, scans[..i]), scans[i].id, scans[i].time)
  }

  /** Scan times as a clock gives them: positive and never decreasing. */
  predicate ClockTimes(scans: seq<Scan>)
  {
    forall i, j :: 0 <= i < j < |scans| ==> 0 < scans[i].time <= scans[j].time
  }

  /** After an accepted scan of `id` at time t, the table keeps a time for `id` that is
      at least t, whatever follows. */
  lemma {:induction false} AcceptedIsRemembered(lastScan: map<string, Time>, scans: seq<Scan>, i: int, k: int)
    requires 0 <= i < k <= |scans| && ClockTimes(scans) && Accepted(lastScan, scans, i)
    ensures scans[i].id in RunGate(lastScan, scans[..k])
    ensures scans[i].time <= RunGate(lastScan, scans[..k])[scans[i].id]
    decreases k
  {
    assert scans[..k][..k - 1] == scans[..k - 1];
    if k - 1 == i {
      assert scans[..i + 1][..i] == scans[..i];
    } else {
      AcceptedIsRemembered(lastScan, scans, i, k - 1);
    }
  }

  /** Two accepted scans of the same id in a run are at least 3000 ms apart. */
  lemma AcceptedScansSpaced(lastScan: map<string, Time>, scans: seq<Scan>, i: int, j: int)
    requires 0 <= i < j < |scans| && ClockTimes(scans)
    requires scans[i].id == scans[j].id
    requires Accepted(lastScan, scans, i) && Accepted(lastScan, scans, j)
    ensures scans[j].time - scans[i].time >= DebounceMs
  {
    AcceptedIsRemembered(lastScan, scans, i, j);
  }
}
