/** The check-in / check-out handlers: a two-state guard per user over the
    Attendance table (no open row -> one open row -> no open row). */
module AttendanceRoute {
  import opened Base
  import opened Tables

  /** Lateness at check-in: the user has a configured start time and `now`
      is strictly after that time on `now`'s local day. */
  function IsLate(now: int, workStartTime: Option<int>): (late: bool)
    ensures late <==> workStartTime.Some? && TimeOfDay(now) > workStartTime.value
  {
    workStartTime.Some? && now > DayStart(now) + workStartTime.value
  }

  /** The verdict depends only on the time of day, and a check-in at or
      before the start time is never late, whatever the day. */
  lemma IsLateByTimeOfDay(now: int, start: int)
    ensures IsLate(now, Some(start)) <==> TimeOfDay(now) > start
    ensures !IsLate(now, None)
  {
  }

  lemma IsLateSameEveryDay(day: int, x: int, start: int)
    requires day % MsPerDay == 0 && 0 <= x < MsPerDay
    ensures IsLate(day + x, Some(start)) <==> x > start
  {
    DayStartUnique(day, day + x);
  }

  /** The lateness test as the handler writes it: the date part of
      `now.toISOString()` is the UTC date, and the start time is then parsed
      as local time on that date. `nowLocal` is local milliseconds and
      `utcOffset` the zone's offset (local = UTC + offset). */
  function IsLateAsWritten(nowLocal: int, utcOffset: int, workStartTime: Option<int>): (late: bool)
    ensures late ==> workStartTime.Some?
    ensures utcOffset == 0 ==> (late <==> IsLate(nowLocal, workStartTime))
  {
    workStartTime.Some? && nowLocal > DayStart(nowLocal - utcOffset) + workStartTime.value
  }

  /** On a server running at UTC the two agree. */
  lemma AsWrittenAgreesAtUtc(now: int, workStartTime: Option<int>)
    ensures IsLateAsWritten(now, 0, workStartTime) == IsLate(now, workStartTime)
  {
  }

  /** Ahead of UTC, every check-in in the first `utcOffset` milliseconds of the
      local day is judged against the previous day's start time, so it is late
      whatever the configured start time. */
  lemma {:induction false} AsWrittenEarlyMorningAlwaysLate(nowLocal: int, utcOffset: int, start: int)
    requires 0 < utcOffset < MsPerDay
    requires TimeOfDay(nowLocal) < utcOffset
    requires 0 <= start < MsPerDay
    ensures IsLateAsWritten(nowLocal, utcOffset, Some(start))
  {
    DayStartUnique(DayStart(nowLocal) - MsPerDay, nowLocal - utcOffset);
  }

  /** Concretely: at UTC+9, start time 09:00, a check-in at 08:00 local on the
      second day of the epoch is flagged late although it is an hour early. */
  lemma AsWrittenCounterexample()
    ensures IsLateAsWritten(MsPerDay + 8 * MsPerHour, 9 * MsPerHour, Some(9 * MsPerHour))
    ensures !IsLate(MsPerDay + 8 * MsPerHour, Some(9 * MsPerHour))
  {
    DayStartUnique(0, MsPerDay + 8 * MsPerHour - 9 * MsPerHour);
    DayStartUnique(MsPerDay, MsPerDay + 8 * MsPerHour);
  }

  /** Row `k` is an open row of `userId` with the latest check-in among them
      (`ORDER BY check_in_time DESC LIMIT 1`; ties may go either way). */
  ghost predicate LatestOpenAt(att: seq<Attendance>, userId: int, k: int)
  {
    && 0 <= k < |att|
    && IsOpenOf(att[k], userId)
    && forall j :: 0 <= j < |att| && IsOpenOf(att[j], userId) ==> att[j].checkIn <= att[k].checkIn
  }

  /** The check-out handler's lookup of the user's latest open row. */
  method FindLatestOpen(att: seq<Attendance>, userId: int) returns (found: Option<nat>)
    ensures found.None? <==> !HasOpen(att, userId)
    ensures found.Some? ==> LatestOpenAt(att, userId, found.value)
  {
    found := None;
    for i := 0 to |att|
      invariant found.None? ==> forall j :: 0 <= j < i ==> !IsOpenOf(att[j], userId)
      invariant found.Some? ==> found.value < i && IsOpenOf(att[found.value], userId)
      invariant found.Some? ==>
        forall j :: 0 <= j < i && IsOpenOf(att[j], userId) ==> att[j].checkIn <= att[found.value].checkIn
    {
      if IsOpenOf(att[i], userId) && (found.None? || att[i].checkIn > att[found.value].checkIn) {
        found := Some(i);
      }
    }
  }

  /** The success path of check-in on values: the invariant holds for the
      longer ledger, in which the user has exactly one open row. */
  lemma CheckInKeepsConsistent(users: seq<User>, att: seq<Attendance>, nu: int, na: int, row: Attendance)
    requires Consistent(users, att, nu, na)
    requires row.id == na && row.checkOut.None? && !HasOpen(att, row.userId)
    ensures Consistent(users, att + [row], nu, na + 1)
    ensures OpenCount(att + [row], row.userId) == 1
  {
    AppendOpenKeepsConsistent(users, att, nu, na, row);
    OpenCountPositive(att, row.userId);
    OpenCountAppend(att, row, row.userId);
  }

  /** `POST /check_in`. `userId == 0` stands for a missing or falsy id. */
  method CheckIn(db: Database, userId: int, now: int) returns (res: Result<bool>)
    requires db.Valid()
    modifies db
    ensures db.Valid()
    ensures db.users == old(db.users) && db.schedule == old(db.schedule) && db.nextUserId == old(db.nextUserId)
    ensures userId == 0 ==> res == Err(MissingField)
    ensures userId != 0 && HasOpen(old(db.attendance), userId) ==> res == Err(AlreadyCheckedIn)
    ensures userId != 0 && !HasOpen(old(db.attendance), userId) && FindUser(db.users, userId).None?
            ==> res == Err(UserNotFound)
    ensures userId != 0 && !HasOpen(old(db.attendance), userId) && FindUser(db.users, userId).Some?
            ==> res.Ok?
    ensures res.Err? ==> db.attendance == old(db.attendance) && db.nextAttendanceId == old(db.nextAttendanceId)
    ensures res.Ok? ==>
      && FindUser(db.users, userId).Some?
      && res.value == IsLate(now, FindUser(db.users, userId).value.workStartTime)
      && db.attendance == old(db.attendance) + [Attendance(old(db.nextAttendanceId), userId, now, None, res.value)]
      && db.nextAttendanceId == old(db.nextAttendanceId) + 1
    ensures res.Ok? ==> OpenCount(db.attendance, userId) == 1
  {
    if userId == 0 {
      return Err(MissingField);
    }
    if HasOpen(db.attendance, userId) {
      return Err(AlreadyCheckedIn);
    }
    var user := FindUser(db.users, userId);
    if user.None? {
      return Err(UserNotFound);
    }
    var isLate := IsLate(now, user.value.workStartTime);
    var row := Attendance(db.nextAttendanceId, userId, now, None, isLate);
    CheckInKeepsConsistent(db.users, db.attendance, db.nextUserId, db.nextAttendanceId, row);
    db.attendance := db.attendance + [row];
    db.nextAttendanceId := db.nextAttendanceId + 1;
    res := Ok(isLate);
  }

  /** `POST /check_out`. `userId == 0` stands for a missing or falsy id. */
  method CheckOut(db: Database, userId: int, now: int) returns (res: Result<int>)
    requires db.Valid()
    modifies db
    ensures db.Valid()
    ensures db.users == old(db.users) && db.schedule == old(db.schedule)
    ensures db.nextUserId == old(db.nextUserId) && db.nextAttendanceId == old(db.nextAttendanceId)
    ensures userId == 0 ==> res == Err(MissingField)
    ensures userId != 0 && !HasOpen(old(db.attendance), userId) ==> res == Err(NotCheckedIn)
    ensures res.Err? ==> db.attendance == old(db.attendance)
    ensures res.Ok? ==>
      && LatestOpenAt(old(db.attendance), userId, res.value)
      && (forall j :: 0 <= j < |old(db.attendance)| && old(db.attendance)[j].id == old(db.attendance)[res.value].id
                      ==> j == res.value)
      && db.attendance == old(db.attendance)[res.value := old(db.attendance)[res.value].(checkOut := Some(now))]
    ensures res.Ok? ==> !HasOpen(db.attendance, userId)
    ensures userId != 0 && HasOpen(old(db.attendance), userId) ==> res.Ok?
  {
    if userId == 0 {
      return Err(MissingField);
    }
    var found := FindLatestOpen(db.attendance, userId);
    if found.None? {
      return Err(NotCheckedIn);
    }
    var k := found.value;
    var att := db.attendance;
    var att' := att[k := att[k].(checkOut := Some(now))];
    CloseKeepsConsistent(db.users, att, db.nextUserId, db.nextAttendanceId, k, now);
    OpenCountClose(att, k, now, userId);
    OpenCountPositive(att', userId);
    db.attendance := att';
    res := Ok(k);
  }
}
