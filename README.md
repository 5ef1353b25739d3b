# ABGym membership lifecycle and access gateway, in Dafny

This project models the part of the ABGym backend that has real logic in it. That
part covers four things:

- the expiration a plan gives a member who joins or changes plan
  (`calculateExpiration`);
- the status reported for an expiration (`determineMemberStatus`);
- the create and update requests for members, and the plan edit that re-derives the
  expiration of every member of the plan inside one transaction;
- the scanner gateway, which answers each QR scan with a grant or a denial and drops
  repeated scans of one id inside a 3000 ms window.

The files are:

- `calendar.dfy` holds the ECMAScript time values and the `Date` arithmetic
  the code relies on: `setDate`, `setMonth`, `setFullYear`, `setHours` and
  `new Date(y, m, d)`. These follow section 21.4.1 of ECMA-262, with the local time
  zone fixed to UTC. A calendar conversion (`CivilFromDays`) is proved to be the
  inverse of `MakeDay`, so the getters `getFullYear`, `getMonth` and `getDate` are
  exact.
- `store.dfy` holds the plan, member and attendance records. It also holds the
  `Database` class, whose three tables the request handlers update in place.
- `members.dfy` models `calculateExpiration`, `determineMemberStatus`,
  `createMember` and `updateMember`.
- `plans.dfy` models `updatePlan` and its per-member loop.
- `scanner.dfy` models the message handler of the scanner server: its debounce
  table, the access decision and the attendance row a grant writes.

Clock reads (`new Date()`, `Date.now()`) become a parameter `now`. The id the store
generates for a new member becomes a parameter `freshId`.

Some consequences of the code that a reader might not expect:

- Joining or changing plan gives an expiration with no grace day. It is
  23:59:59.999 of the day the duration reaches (`Members.DayPlanEnds`,
  `Members.ExpirationDay`).
- Only the plan edit adds a grace day, and it pins the time to 23:59:00.000 UTC, not
  23:59:59.999 (`Plans.CascadeAddsGraceDay`). For a member who joins on 2024-01-15 a
  plan of one month, the code gives 2024-02-15 at 23:59:59.999 on joining. It gives
  2024-02-16 at 23:59:00.000 after a plan edit (`Plans.JoinMidJanuaryForAMonth`).
- A month or year that lacks the start's date rolls over into the next month; it is
  not clamped to the month's last day (`Members.MonthPlanDate`,
  `Members.YearPlanDate`).
- The reported status turns Expired only a full day after the expiration. Within
  that day it is still Expiring, because the rounded-up day count is 0 and not
  negative (`Members.ExpiringForADayAfterExpiry`). The scanner denies a member as
  soon as the expiration has passed, so for one day the two disagree
  (`Scanner.DeniedWhileStillExpiring`).
- A scan exactly 3000 ms after the last accepted one is accepted. A stored time
  of 0 is falsy and never drops a scan (`Scanner.DebounceBoundary`,
  `Scanner.ZeroIsNoScan`).
- A plan edit with a unit outside the enumeration is refused by the store before
  anything is written. Its error is neither of the two the controller recognises, so
  the answer is status 500 (`Store.Failure.StoreError`). An edit of a plan id that
  does not exist makes the update throw a known request error, which the controller
  answers with status 400 (`Store.Failure.StoreRejected`).

## Model

| member | source | states |
|---|---|---|
| Store.ParseUnit | src/controllers/membersController.ts:227-231 | a unit is one of the four names Day, Week, Month, Year; any other string is no unit |
| Store.ParseUnitName | src/controllers/membersController.ts:227-231 | reading a unit's name gives the unit back |
| Calendar.TimeWithinDay | src/controllers/membersController.ts:249 | the time of day lies in [0, 86 400 000) and together with the day number rebuilds the time value |
| Calendar.MakeDate | src/controllers/membersController.ts:249 | a time value built from a day and an in-range time of day has that day and that time of day |
| Calendar.DaysInMonth | src/controllers/membersController.ts:241-242 | every month has 28 to 31 days |
| Calendar.YearFromTime | src/controllers/membersController.ts:244-245 | `getFullYear` is the year of the time value's calendar date |
| Calendar.MonthFromTime | src/controllers/membersController.ts:241-242 | `getMonth` is the 0-based month of the time value's calendar date |
| Calendar.DateFromTime | src/controllers/membersController.ts:235-239 | `getDate` is the day of the month of the time value's calendar date |
| Calendar.GetterDate | src/controllers/plansController.ts:107-111 | the fields the getters compute are the calendar date of the time value |
| Calendar.SetDate | src/controllers/plansController.ts:113-122 | `setDate(d)` moves the time value by whole days, as many as d differs from the current date |
| Calendar.SetMonth | src/controllers/membersController.ts:241-242 | `setMonth(m)` keeps the time of day and lands on the current date in month m, normalised into a year, rolling over when the month is too short |
| Calendar.MovedMonthDate | src/controllers/membersController.ts:241-242 | the day `setMonth` lands on has the current date in the normalised target month, rolled over when too long |
| Calendar.MovedMonthDay | src/controllers/membersController.ts:241-242 | date d of any month index is the rolled-over date d of that month normalised into a year and a month 0 to 11 |
| Calendar.MonthIndexSplit | src/controllers/membersController.ts:241-242 | a month outside 0 to 11 names the same day as its normalised year and month |
| Calendar.SetFullYear | src/controllers/membersController.ts:244-245 | `setFullYear(y)` keeps the time of day and lands on the current month and date in year y, February 29 rolling over to March 1 |
| Calendar.DateFromComponents | src/controllers/plansController.ts:107-111 | `new Date(y, m, d)` is midnight of the date (y, m, d), with years 0 to 99 read as 1900 + y and overlong dates rolled over |
| Store.Database.constructor | src/scanner/scanner.ws.ts:4 | the store's three tables: plans filed under their ids, members and attendance starting empty |
| Calendar.SetHours | src/controllers/membersController.ts:249 | `setHours` keeps the day and sets the time of day |
| Calendar.DaysRoundTrip | src/controllers/membersController.ts:236-245 | every day number is the MakeDay of the valid date the getters read off it |
| Calendar.DayOfCivil | src/controllers/membersController.ts:236-245 | a valid date read back from its MakeDay is itself |
| Calendar.CivilRoundTrip | src/controllers/membersController.ts:236-245 | the getters invert MakeDay on valid dates |
| Calendar.MakeDayDate | src/controllers/membersController.ts:241-245 | MakeDay of a date past the month's end lands on the matching date of the next month |
| Calendar.LandsOnValid | src/controllers/membersController.ts:241-245 | the rolled-over date is a valid date with the same day number |
| Calendar.DateOfMakeDay | src/controllers/membersController.ts:241-245 | a time value on MakeDay(y, m, d) has the rolled-over date of (y, m, d) |
| Calendar.AddMonthsNotEarlier | src/controllers/membersController.ts:241-242 | moving a date forward by n >= 0 months never moves it back |
| Calendar.AddYearsNotEarlier | src/controllers/membersController.ts:244-245 | moving a date forward by n >= 0 years never moves it back |
| Calendar.MonthsGrow | src/controllers/membersController.ts:241-245 | each month starts at least 28 days after the one before it |
| Calendar.MakeDayInjective | src/controllers/membersController.ts:236-245 | two valid dates with the same day number are the same date |
| Calendar.DayShift | src/controllers/plansController.ts:122 | adding n days to a time value moves its day by n and keeps its time of day |
| Calendar.FieldsOfTime | src/controllers/membersController.ts:236-245 | the fields the getters return are the calendar date of the time value |
| Calendar.TimeFieldsRoundTrip | src/controllers/membersController.ts:236-245 | the getters' fields form a valid date whose MakeDay is the time value's day |
| Calendar.SetDateShifts | src/controllers/membersController.ts:235-239 | `setDate(getDate() + n)` moves a date by exactly n days and keeps its time of day |
| Members.AddDuration | src/controllers/membersController.ts:234-247 | the unit switch moves the day as the unit demands: n days, 7n days, n months or n years; the time of day is kept |
| Members.MonthMoves | src/controllers/membersController.ts:241-242 | `setMonth(getMonth() + n)` lands on the day an n-month plan reaches |
| Members.YearMoves | src/controllers/membersController.ts:244-245 | `setFullYear(getFullYear() + n)` lands on the day an n-year plan reaches |
| Members.CalculateExpiration | src/controllers/membersController.ts:227-251 | the expiration is 23:59:59.999 of the day the duration reaches from the start's day |
| Members.DayPlanEnds | src/controllers/membersController.ts:235-236 | an n-day plan ends n days after the start's day at 23:59:59.999, less than n + 1 days after the start; there is no grace day |
| Members.WeekIsSevenDays | src/controllers/membersController.ts:238-239 | an n-week plan ends where a 7n-day plan ends |
| Members.ExpirationDay | src/controllers/membersController.ts:227-251 | the expiration falls on the shifted day, at 23:59:59.999 |
| Members.MonthPlanDay | src/controllers/membersController.ts:241-242 | an n-month plan ends on MakeDay of the start's date n months later |
| Members.YearPlanDay | src/controllers/membersController.ts:244-245 | an n-year plan ends on MakeDay of the start's month and date n years later |
| Members.MonthPlanDate | src/controllers/membersController.ts:241-242 | an n-month plan ends on the start's date n months later, or on the matching date of the month after when the month is too short |
| Members.YearPlanDate | src/controllers/membersController.ts:244-245 | an n-year plan ends on the start's month and date n years later; February 29 rolls over to March 1 outside leap years |
| Members.MonthPlanNotEarlier | src/controllers/membersController.ts:241-242 | a plan of n >= 0 months does not end before its start day |
| Members.YearPlanNotEarlier | src/controllers/membersController.ts:244-245 | a plan of n >= 0 years does not end before its start day |
| Members.ExpirationNotBeforeStart | src/controllers/membersController.ts:227-251 | for a duration of 0 or more units the expiration is not before the start |
| Members.EndOfDayNotBefore | src/controllers/membersController.ts:249 | 23:59:59.999 of an instant's day or of a later day is not before the instant |
| Members.ExpirationIgnoresTimeOfDay | src/controllers/membersController.ts:227-251 | two starts on the same day give the same expiration: the start's time of day never matters |
| Members.CeilDays | src/controllers/membersController.ts:255-256 | the rounded-up day count c satisfies (c - 1) days < diff <= c days |
| Members.DetermineMemberStatus | src/controllers/membersController.ts:253-261 | Expired iff now is a full day or more past the expiration; Active iff more than 7 days remain; Expiring in between |
| Members.StatusMonotone | src/controllers/membersController.ts:253-261 | as time passes the status only moves from Active to Expiring to Expired |
| Members.SevenDayBoundary | src/controllers/membersController.ts:259-260 | exactly 7 days before expiration the status is Expiring; a millisecond earlier it is Active |
| Members.ExpiringForADayAfterExpiry | src/controllers/membersController.ts:258-259 | for one day after the expiration the status is Expiring; from then on it is Expired |
| Members.CreateMember | src/controllers/membersController.ts:15-71 | a falsy required field is a payload error and an unknown plan is a plan error; a taken id is a store rejection; each error writes nothing; the request succeeds exactly when none of these applies, and then the body's fields are stored with the join date (or now) and the plan's expiration |
| Members.UpdateMember | src/controllers/membersController.ts:119-203 | the same payload check, then member lookup; the body's fields overwrite the member; the join date changes only when given; a different plan is looked up (no write if missing) and recomputes the expiration from the final join date; an unchanged plan keeps the stored expiration; the request succeeds exactly when the payload is valid, the member exists and the plan is unchanged or exists |
| Plans.CascadeDate | src/controllers/plansController.ts:105-124 | the re-derived expiration is 23:59:00.000 of the day after the one the duration reaches from the join date's midnight |
| Plans.MidnightOfFields | src/controllers/plansController.ts:106-111 | `new Date(getFullYear(), getMonth(), getDate())` is midnight of the join day, with years 0 to 99 read as 1900 + year |
| Plans.NextDayAtGraceEnd | src/controllers/plansController.ts:122-124 | `setDate(getDate() + 1)` then `setUTCHours(23, 59, 0, 0)` is 23:59:00.000 of the next day |
| Plans.CascadeOne | src/controllers/plansController.ts:105-129 | one loop iteration changes the member's expiration only, to the re-derived one |
| Plans.UpdatePlan | src/controllers/plansController.ts:80-149 | falsy fields give a payload error; an unknown unit gives a store error (500); an unknown plan gives a store rejection (400); each error writes nothing; the request succeeds exactly when none of these applies, and then the plan is replaced and every member of the plan gets the re-derived expiration |
| Plans.CascadeAll | src/controllers/plansController.ts:101-130 | after the loop every member of the plan, and no other member, has the re-derived expiration |
| Plans.Visit | src/controllers/plansController.ts:105-129 | visiting one more member updates it exactly when it belongs to the plan |
| Plans.NoneVisited | src/controllers/plansController.ts:101-103 | before the loop the members table is unchanged |
| Plans.VisitOne | src/controllers/plansController.ts:105-129 | visiting one member changes that member's entry and no other |
| Plans.CascadeTouchesOnlyExpiration | src/controllers/plansController.ts:126-129 | the cascade keeps the members' ids, leaves other plans' members alone, and changes only the expiration of the plan's members |
| Plans.CascadeIdempotent | src/controllers/plansController.ts:101-130 | editing a plan twice with the same terms gives the same members as editing it once |
| Plans.RederiveIdempotent | src/controllers/plansController.ts:101-130 | re-deriving twice equals once when each step keeps the plan and is idempotent |
| Plans.CascadeIgnoresTimeOfDay | src/controllers/plansController.ts:106-124 | join dates on the same day get the same re-derived expiration, at 23:59:00.000 |
| Plans.EarlyYearMidnight | src/controllers/plansController.ts:107-111 | for join dates in the years 0 to 99 the cascade starts 1900 years later |
| Plans.CascadeAddsGraceDay | src/controllers/plansController.ts:105-124 | outside the years 0 to 99 the re-derived expiration is the joining expiration plus a day, less 59 999 ms |
| Plans.CascadeAfterJoin | src/controllers/plansController.ts:105-124 | outside the years 0 to 99 a duration of 0 or more re-derives an expiration after the join date |
| Plans.JoinMidJanuaryForAMonth | src/controllers/plansController.ts:105-124 | joining 2024-01-15 for a month gives 2024-02-15 23:59:59.999 on joining and 2024-02-16 23:59:00.000 after a plan edit |
| Scanner.Gate | src/scanner/scanner.ws.ts:19-22 | a scan less than 3000 ms after a non-zero stored time leaves the table alone; any other scan records its time; other ids are untouched |
| Scanner.Decide | src/scanner/scanner.ws.ts:34-65 | an unknown id is denied as not found; an expiration before now is denied as expired, with the name; otherwise the grant carries the member's id, name, expiration, plan name and the check-in time |
| Scanner.ScanGate.constructor | src/scanner/scanner.ws.ts:5 | the debounce table starts empty |
| Scanner.ScanGate.OnMessage | src/scanner/scanner.ws.ts:13-73 | a dropped scan returns nothing and writes nothing; an accepted scan records its time and returns the decision; only a grant appends one attendance row; members and plans are unchanged |
| Scanner.Attended | src/scanner/scanner.ws.ts:47-53 | a scan adds at most one attendance row, and one exactly when it is granted |
| Scanner.DebounceBoundary | src/scanner/scanner.ws.ts:19-21 | a scan 3000 ms after the last is accepted; one 2999 ms after it is dropped |
| Scanner.ZeroIsNoScan | src/scanner/scanner.ws.ts:19-22 | a stored time of 0 never drops a scan |
| Scanner.ExpiringNowIsGranted | src/scanner/scanner.ws.ts:41-47 | a scan at the expiration instant is granted; one a millisecond later is denied as expired |
| Scanner.DeniedWhileStillExpiring | src/scanner/scanner.ws.ts:41-46 | for a day after expiry a scan is denied while the status is still Expiring; a granted scan never has status Expired |
| Scanner.AcceptedIsRemembered | src/scanner/scanner.ws.ts:19-22 | after an accepted scan the table keeps a time at least as late for that id, whatever scans follow |
| Scanner.AcceptedScansSpaced | src/scanner/scanner.ws.ts:19-22 | two accepted scans of one id, with clock times, are at least 3000 ms apart |

## Left out

- HTTP and WebSocket plumbing: Express routing, response formatting, JSON and ISO 8601 serialisation, the `readyState` check before sending, and logging.
- Scanner.ScanGate.OnMessage: a store failure during lookup or insert is not modelled. The source catches it and sends no reply; the model assumes the store answers.
- Concurrency: interleaved scans and requests, and the isolation level of the plan-edit transaction. Each handler is modelled as one atomic step.
- Clock reads: the source reads the clock several times per scan. The model uses one `now`.
- Time zones: the local zone is fixed to UTC, so `setHours` and `setUTCHours` coincide. `new Date(y, m, d)` is UTC midnight.
- The ECMA-262 time-value range limit (TimeClip) and invalid dates (NaN) from unparsable date strings. All time values are integers.
- JavaScript coercion of request fields: `Number(...)` of strings, and `+ durationValue` on a string, which would concatenate. Bodies arrive as typed fields, and `None` marks an absent field (for `dob` and `joinDate`, also an empty string). A numeric 0 for `dob` or `joinDate` is falsy in the source and rejected or ignored there, but the model counts `Some(0)` as present.
- Members.CreateMember: the only unique-key failure modelled is a clash on the generated id (`freshId`). Other unique constraints of the store's schema are not part of this model.
- Members.UpdateMember: a member deleted between the lookup and the write is not modelled. Neither is a validation error raised by the store.
- getMembers and getMember attach `determineMemberStatus` to each row they read. The status itself is Members.DetermineMemberStatus; the list and lookup around it are plain reads.
- The renewal flow with its ledger entry, the other controllers (attendance, auth, categories, transactions), plan creation and deletion, member deletion, and server start-up: none of these is in the modelled core.
- Members.MonthPlanNotEarlier, Members.YearPlanNotEarlier and Members.ExpirationNotBeforeStart: stated for durations of 0 or more. A negative duration moves the expiration backwards in the source too.
- Plans.CascadeAddsGraceDay and Plans.CascadeAfterJoin: stated for join dates outside the years 0 to 99. For those years the cascade starts 1900 years later (Plans.EarlyYearMidnight).
