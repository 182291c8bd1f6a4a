/** The manager routes: the live dashboard, adding and deleting employees,
    and the formatted attendance list. */
module Manager {
  import opened Base
  import opened Tables

  // ---------------------------------------------------------------------------
  // Row selections the dashboard's queries make

  /** `SELECT id, user_id, name FROM Users WHERE role = 'worker'`, in table order. */
  function WorkersOf(users: seq<User>): (ws: seq<User>)
    ensures forall u :: u in ws <==> u in users && u.role == Worker
    ensures |ws| <= |users|
  {
    if users == [] then []
    else
      var init, last := users[..|users| - 1], users[|users| - 1];
      assert users == init + [last];
      WorkersOf(init) + (if last.role == Worker then [last] else [])
  }

  /** `SELECT ... FROM Attendance WHERE DATE(check_in_time) = ?` for the local day starting at `day`. */
  function RecordsOfDay(att: seq<Attendance>, day: int): (rs: seq<Attendance>)
    ensures forall a :: a in rs <==> a in att && DayStart(a.checkIn) == day
    ensures |rs| <= |att|
  {
    if att == [] then []
    else
      var init, last := att[..|att| - 1], att[|att| - 1];
      assert att == init + [last];
      RecordsOfDay(init, day) + (if DayStart(last.checkIn) == day then [last] else [])
  }

  /** `todayRecords.find(r => r.user_id === worker.id)`: the index of the first matching row. */
  function FirstRecordOf(rs: seq<Attendance>, userId: int): (r: Option<nat>)
    ensures r.None? <==> forall k :: 0 <= k < |rs| ==> rs[k].userId != userId
    ensures r.Some? ==> r.value < |rs| && rs[r.value].userId == userId
    ensures r.Some? ==> forall j :: 0 <= j < r.value ==> rs[j].userId != userId
  {
    if rs == [] then None
    else if rs[0].userId == userId then Some(0)
    else match FirstRecordOf(rs[1..], userId)
      case None => None
      case Some(k) => Some(k + 1)
  }

  // ---------------------------------------------------------------------------
  // Dashboard

  /** 미출근 (not in yet), 근무 중 (working), 퇴근 (left). */
  datatype Status = NotIn | Working | Left

  /** Local hour and minute of a check-in, shown as HH:MM. */
  datatype Clock = Clock(hour: int, minute: int)

  datatype StatusEntry = StatusEntry(id: int, name: string, status: Status, time: Option<Clock>, isLate: bool)

  datatype Stats = Stats(todayCheckIn: int, working: int, late: int, totalWorkers: int)

  datatype DashboardData = DashboardData(stats: Stats, statusList: seq<StatusEntry>)

  /** `getHours()` and `getMinutes()` of a local timestamp. */
  function ClockOf(t: int): (c: Clock)
    ensures 0 <= c.hour < 24 && 0 <= c.minute < 60
    ensures c.hour * MsPerHour + c.minute * MsPerMinute <= TimeOfDay(t) < c.hour * MsPerHour + (c.minute + 1) * MsPerMinute
  {
    Clock(TimeOfDay(t) / MsPerHour, (TimeOfDay(t) % MsPerHour) / MsPerMinute)
  }

  /** The dashboard's lateness rule, exactly as written: hour at least 9 and minute above 0. */
  predicate DashboardLate(c: Clock): (late: bool)
    ensures late ==> c.hour * 60 + c.minute > 9 * 60
    ensures c.minute == 0 ==> !late
  {
    c.hour >= 9 && c.minute > 0
  }

  /** In terms of the check-in time: late exactly when it is 09:01 or later
      and at least one whole minute past the hour -- so 10:00 and 11:00:30
      are not late while 09:01 is. */
  lemma DashboardLateMeans(t: int)
    ensures DashboardLate(ClockOf(t))
        <==> TimeOfDay(t) >= 9 * MsPerHour && TimeOfDay(t) % MsPerHour >= MsPerMinute
  {
    var x := TimeOfDay(t);
    var h, r := x / MsPerHour, x % MsPerHour;
    assert x == h * MsPerHour + r && 0 <= r < MsPerHour;
    assert (x >= 9 * MsPerHour) == (h >= 9);
  }

  lemma DashboardLateExamples()
    ensures !DashboardLate(ClockOf(9 * MsPerHour))
    ensures DashboardLate(ClockOf(9 * MsPerHour + MsPerMinute))
    ensures !DashboardLate(ClockOf(10 * MsPerHour))
    ensures !DashboardLate(ClockOf(8 * MsPerHour + 59 * MsPerMinute))
  {
    DashboardLateMeans(9 * MsPerHour);
    DashboardLateMeans(9 * MsPerHour + MsPerMinute);
    DashboardLateMeans(10 * MsPerHour);
    DashboardLateMeans(8 * MsPerHour + 59 * MsPerMinute);
  }

  /** One worker's entry of `statusList`. */
  function EntryFor(w: User, today: seq<Attendance>): (e: StatusEntry)
    ensures e.id == w.id && e.name == w.name
    ensures e.isLate ==> e.status != NotIn
    ensures e.status == NotIn <==> e.time.None?
  {
    match FirstRecordOf(today, w.id)
    case None => StatusEntry(w.id, w.name, NotIn, None, false)
    case Some(k) =>
      var c := ClockOf(today[k].checkIn);
      StatusEntry(w.id, w.name, if today[k].checkOut.Some? then Left else Working, Some(c), DashboardLate(c))
  }

  /** 미출근 exactly when the worker has no row today. */
  lemma NotInMeansNoRecord(w: User, today: seq<Attendance>)
    ensures EntryFor(w, today).status == NotIn <==> forall k :: 0 <= k < |today| ==> today[k].userId != w.id
  {
  }

  /** The first of the worker's rows decides: closed means 퇴근, open means 근무 중. */
  lemma EntryFollowsFirstRecord(w: User, today: seq<Attendance>, k: nat)
    requires k < |today| && today[k].userId == w.id
    requires forall j :: 0 <= j < k ==> today[j].userId != w.id
    ensures EntryFor(w, today).status == (if today[k].checkOut.Some? then Left else Working)
    ensures EntryFor(w, today).time == Some(ClockOf(today[k].checkIn))
    ensures EntryFor(w, today).isLate == DashboardLate(ClockOf(today[k].checkIn))
  {
    var f := FirstRecordOf(today, w.id);
    assert f.Some?;
  }

  function CountCheckedIn(es: seq<StatusEntry>): nat
  {
    if es == [] then 0 else CountCheckedIn(es[..|es| - 1]) + (if es[|es| - 1].status != NotIn then 1 else 0)
  }

  function CountWorking(es: seq<StatusEntry>): nat
  {
    if es == [] then 0 else CountWorking(es[..|es| - 1]) + (if es[|es| - 1].status == Working then 1 else 0)
  }

  /** `statusList.filter(s => s.isLate).length` */
  function CountLate(es: seq<StatusEntry>): (n: nat)
    ensures n <= |es|
  {
    if es == [] then 0 else CountLate(es[..|es| - 1]) + (if es[|es| - 1].isLate then 1 else 0)
  }

  /** No late entries exactly when the late count is 0. */
  lemma {:induction false} CountLateZero(es: seq<StatusEntry>)
    ensures CountLate(es) == 0 <==> forall k :: 0 <= k < |es| ==> !es[k].isLate
  {
    if es != [] {
      var init := es[..|es| - 1];
      CountLateZero(init);
      assert forall k :: 0 <= k < |init| ==> init[k] == es[k];
    }
  }

  lemma CountsSnoc(es: seq<StatusEntry>, e: StatusEntry)
    ensures CountCheckedIn(es + [e]) == CountCheckedIn(es) + (if e.status != NotIn then 1 else 0)
    ensures CountWorking(es + [e]) == CountWorking(es) + (if e.status == Working then 1 else 0)
    ensures CountLate(es + [e]) == CountLate(es) + (if e.isLate then 1 else 0)
  {
    assert (es + [e])[..|es|] == es;
  }

  /** Working entries and late entries are among the checked-in ones, which
      are among all entries. */
  lemma {:induction false} CountsOrdered(es: seq<StatusEntry>)
    requires forall k :: 0 <= k < |es| ==> es[k].isLate ==> es[k].status != NotIn
    ensures CountWorking(es) <= CountCheckedIn(es) <= |es|
    ensures CountLate(es) <= CountCheckedIn(es)
  {
    if es != [] {
      CountsOrdered(es[..|es| - 1]);
    }
  }

  /** The `workers.map` callback for one worker: its entry, and whether it
      bumps `checkInCount` and `workingCount`. */
  method StatusOfWorker(worker: User, todayRecords: seq<Attendance>)
    returns (entry: StatusEntry, checkedIn: bool, working: bool)
    ensures entry == EntryFor(worker, todayRecords)
    ensures checkedIn <==> entry.status != NotIn
    ensures working <==> entry.status == Working
  {
    var record := FirstRecordOf(todayRecords, worker.id);
    var status := NotIn;
    var timeText: Option<Clock> := None;
    var isLate := false;
    checkedIn, working := false, false;
    if record.Some? {
      checkedIn := true;
      var r := todayRecords[record.value];
      var c := ClockOf(r.checkIn);
      timeText := Some(c);
      if c.hour >= 9 && c.minute > 0 {
        isLate := true;
      }
      if r.checkOut.Some? {
        status := Left;
      } else {
        status := Working;
        working := true;
      }
      EntryFollowsFirstRecord(worker, todayRecords, record.value);
    }
    entry := StatusEntry(worker.id, worker.name, status, timeText, isLate);
  }

  /** `workers.map(...)`: the entries of the workers, in worker order. */
  function Entries(workers: seq<User>, todayRecords: seq<Attendance>): seq<StatusEntry>
  {
    if workers == [] then []
    else Entries(workers[..|workers| - 1], todayRecords) + [EntryFor(workers[|workers| - 1], todayRecords)]
  }

  /** One entry per worker, the k-th for the k-th worker. */
  lemma {:induction false} EntriesIndex(workers: seq<User>, todayRecords: seq<Attendance>)
    ensures |Entries(workers, todayRecords)| == |workers|
    ensures forall k :: 0 <= k < |workers| ==> Entries(workers, todayRecords)[k] == EntryFor(workers[k], todayRecords)
  {
    if workers != [] {
      var init := workers[..|workers| - 1];
      EntriesIndex(init, todayRecords);
      assert forall k :: 0 <= k < |init| ==> init[k] == workers[k];
    }
  }

  /** The `workers.map` loop itself: the entries in worker order and the two
      counters bumped inside the callback. */
  method CollectStatus(workers: seq<User>, todayRecords: seq<Attendance>)
    returns (statusList: seq<StatusEntry>, checkInCount: int, workingCount: int)
    ensures statusList == Entries(workers, todayRecords)
    ensures checkInCount == CountCheckedIn(statusList) && workingCount == CountWorking(statusList)
  {
    workingCount := 0;
    checkInCount := 0;
    statusList := [];
    for i := 0 to |workers|
      invariant statusList == Entries(workers[..i], todayRecords)
      invariant checkInCount == CountCheckedIn(statusList)
      invariant workingCount == CountWorking(statusList)
    {
      var entry, checkedIn, working := StatusOfWorker(workers[i], todayRecords);
      if checkedIn {
        checkInCount := checkInCount + 1;
      }
      if working {
        workingCount := workingCount + 1;
      }
      CountsSnoc(statusList, entry);
      assert workers[..i + 1][..i] == workers[..i];
      statusList := statusList + [entry];
    }
    assert workers[..|workers|] == workers;
  }

  /** The dashboard's body after the two queries: the entries, the counters,
      and `statusList.filter(s => s.isLate).length`. */
  method BuildDashboard(workers: seq<User>, todayRecords: seq<Attendance>) returns (d: DashboardData)
    ensures |d.statusList| == |workers|
    ensures forall k :: 0 <= k < |workers| ==> d.statusList[k] == EntryFor(workers[k], todayRecords)
    ensures d.stats == Stats(CountCheckedIn(d.statusList), CountWorking(d.statusList),
                             CountLate(d.statusList), |workers|)
    ensures d.stats.working <= d.stats.todayCheckIn <= d.stats.totalWorkers
    ensures d.stats.late <= d.stats.todayCheckIn
  {
    var statusList, checkInCount, workingCount := CollectStatus(workers, todayRecords);
    EntriesIndex(workers, todayRecords);
    forall k | 0 <= k < |statusList| ensures statusList[k].isLate ==> statusList[k].status != NotIn {
      assert statusList[k] == EntryFor(workers[k], todayRecords);
    }
    CountsOrdered(statusList);
    d := DashboardData(Stats(checkInCount, workingCount, CountLate(statusList), |workers|), statusList);
  }

  /** `GET /dashboard`: the workers, today's rows (today being `now`'s local
      day), then one entry per worker in worker order and the counts. */
  method Dashboard(users: seq<User>, attendance: seq<Attendance>, now: int) returns (d: DashboardData)
    ensures var workers := WorkersOf(users);
      && |d.statusList| == |workers|
      && forall k :: 0 <= k < |workers| ==>
           d.statusList[k] == EntryFor(workers[k], RecordsOfDay(attendance, DayStart(now)))
    ensures d.stats == Stats(CountCheckedIn(d.statusList), CountWorking(d.statusList),
                             CountLate(d.statusList), |WorkersOf(users)|)
    ensures d.stats.working <= d.stats.todayCheckIn <= d.stats.totalWorkers
    ensures d.stats.late <= d.stats.todayCheckIn
  {
    var workers := WorkersOf(users);
    var todayRecords := RecordsOfDay(attendance, DayStart(now));
    d := BuildDashboard(workers, todayRecords);
  }

  // ---------------------------------------------------------------------------
  // Employees

  const DefaultHourlyWage: int := 9860

  /** `SELECT id FROM Users WHERE user_id = ?` returns a row. */
  predicate LoginTaken(users: seq<User>, loginId: string): (taken: bool)
    ensures taken <==> exists u :: u in users && u.loginId == loginId
  {
    exists k :: 0 <= k < |users| && users[k].loginId == loginId
  }

  /** `POST /employees`. `""` stands for a falsy string field and
      `hourlyWage == 0` for a falsy wage, which defaults to 9860. */
  method AddEmployee(db: Database, loginId: string, password: string, name: string, hourlyWage: int)
    returns (res: Result<()>)
    requires db.Valid()
    modifies db
    ensures db.Valid()
    ensures db.attendance == old(db.attendance) && db.schedule == old(db.schedule)
    ensures db.nextAttendanceId == old(db.nextAttendanceId)
    ensures loginId == "" || password == "" || name == "" ==> res == Err(MissingField)
    ensures loginId != "" && password != "" && name != "" && LoginTaken(old(db.users), loginId)
            ==> res == Err(DuplicateLoginId)
    ensures loginId != "" && password != "" && name != "" && !LoginTaken(old(db.users), loginId)
            ==> res.Ok?
    ensures res.Err? ==> db.users == old(db.users) && db.nextUserId == old(db.nextUserId)
    ensures res.Ok? ==>
      && loginId != "" && password != "" && name != "" && !LoginTaken(old(db.users), loginId)
      && db.users == old(db.users) + [User(old(db.nextUserId), loginId, password, name, Worker,
                                           if hourlyWage == 0 then DefaultHourlyWage else hourlyWage, None)]
      && db.nextUserId == old(db.nextUserId) + 1
  {
    if loginId == "" || password == "" || name == "" {
      return Err(MissingField);
    }
    if LoginTaken(db.users, loginId) {
      return Err(DuplicateLoginId);
    }
    var wage := if hourlyWage == 0 then DefaultHourlyWage else hourlyWage;
    var user := User(db.nextUserId, loginId, password, name, Worker, wage, None);
    AppendUserKeepsConsistent(db.users, db.nextUserId, user);
    db.users := db.users + [user];
    db.nextUserId := db.nextUserId + 1;
    res := Ok(());
  }

  lemma AppendUserKeepsConsistent(users: seq<User>, nu: int, user: User)
    requires UsersConsistent(users, nu)
    requires user.id == nu && !LoginTaken(users, user.loginId)
    ensures UsersConsistent(users + [user], nu + 1)
  {
    forall a | a in users + [user] ensures (a in users || a == user) && 0 < a.id < nu + 1 {
      assert a in users || a == user;
    }
    forall a | a in users ensures a.loginId != user.loginId {
      var k :| 0 <= k < |users| && users[k] == a;
    }
    forall i, j | 0 <= i < j < |users + [user]| ensures (users + [user])[i].id != (users + [user])[j].id {
      if j == |users| {
        assert users[i] in users;
      }
    }
  }

  /** `DELETE FROM Attendance WHERE user_id = ?` */
  function AttendanceWithout(att: seq<Attendance>, userId: int): (rs: seq<Attendance>)
    ensures forall a :: a in rs <==> a in att && a.userId != userId
  {
    if att == [] then []
    else
      var init, last := att[..|att| - 1], att[|att| - 1];
      assert att == init + [last];
      AttendanceWithout(init, userId) + (if last.userId != userId then [last] else [])
  }

  /** `DELETE FROM Users WHERE id = ?` */
  function UsersWithout(users: seq<User>, id: int): (us: seq<User>)
    ensures forall u :: u in us <==> u in users && u.id != id
  {
    if users == [] then []
    else
      var init, last := users[..|users| - 1], users[|users| - 1];
      assert users == init + [last];
      UsersWithout(init, id) + (if last.id != id then [last] else [])
  }

  /** After the cascade the deleted user has no open row; everyone else keeps theirs. */
  lemma {:induction false} OpenCountAfterDelete(att: seq<Attendance>, userId: int, u: int)
    ensures OpenCount(AttendanceWithout(att, userId), u) == if u == userId then 0 else OpenCount(att, u)
  {
    if att != [] {
      var init, last := att[..|att| - 1], att[|att| - 1];
      OpenCountAfterDelete(init, userId, u);
      var rest := AttendanceWithout(init, userId);
      assert OpenCount(att, u) == OpenCount(init, u) + (if IsOpenOf(last, u) then 1 else 0);
      if last.userId != userId {
        assert AttendanceWithout(att, userId) == rest + [last];
        OpenCountAppend(rest, last, u);
      } else {
        assert AttendanceWithout(att, userId) == rest + [];
        assert rest + [] == rest;
      }
    }
  }

  /** Filtering keeps the remaining attendance keys distinct. */
  lemma {:induction false} AttendanceWithoutKeepsKeys(att: seq<Attendance>, userId: int)
    requires AttendanceIdsDistinct(att)
    ensures AttendanceIdsDistinct(AttendanceWithout(att, userId))
  {
    if att != [] {
      var init, last := att[..|att| - 1], att[|att| - 1];
      assert AttendanceIdsDistinct(init) by {
        assert forall i :: 0 <= i < |init| ==> init[i] == att[i];
      }
      AttendanceWithoutKeepsKeys(init, userId);
      var rest := AttendanceWithout(init, userId);
      if last.userId != userId {
        var r := rest + [last];
        assert AttendanceWithout(att, userId) == r;
        forall i, j | 0 <= i < j < |r| ensures r[i].id != r[j].id {
          if j == |rest| {
            assert rest[i] in rest;
            var k :| 0 <= k < |init| && init[k] == rest[i];
            assert att[k] == rest[i] && att[|att| - 1] == last;
          } else {
            assert r[i] == rest[i] && r[j] == rest[j];
          }
        }
      } else {
        assert AttendanceWithout(att, userId) == rest + [];
        assert rest + [] == rest;
      }
    }
  }

  /** Filtering keeps the remaining user keys distinct. */
  lemma {:induction false} UsersWithoutKeepsKeys(users: seq<User>, id: int)
    requires UserIdsDistinct(users)
    ensures UserIdsDistinct(UsersWithout(users, id))
  {
    if users != [] {
      var init, last := users[..|users| - 1], users[|users| - 1];
      assert UserIdsDistinct(init) by {
        assert forall i :: 0 <= i < |init| ==> init[i] == users[i];
      }
      UsersWithoutKeepsKeys(init, id);
      var rest := UsersWithout(init, id);
      if last.id != id {
        var r := rest + [last];
        assert UsersWithout(users, id) == r;
        forall i, j | 0 <= i < j < |r| ensures r[i].id != r[j].id {
          if j == |rest| {
            assert rest[i] in rest;
            var k :| 0 <= k < |init| && init[k] == rest[i];
            assert users[k] == rest[i] && users[|users| - 1] == last;
          } else {
            assert r[i] == rest[i] && r[j] == rest[j];
          }
        }
      } else {
        assert UsersWithout(users, id) == rest + [];
        assert rest + [] == rest;
      }
    }
  }

  /** The delete cascade on values keeps the table invariant. */
  lemma DeleteKeepsConsistent(users: seq<User>, att: seq<Attendance>, nu: int, na: int, id: int)
    requires Consistent(users, att, nu, na)
    ensures Consistent(UsersWithout(users, id), AttendanceWithout(att, id), nu, na)
  {
    forall u ensures OpenCount(AttendanceWithout(att, id), u) <= 1 {
      OpenCountAfterDelete(att, id, u);
    }
    AttendanceWithoutKeepsKeys(att, id);
    UsersWithoutKeepsKeys(users, id);
  }

  /** `DELETE /employees/:id`: the user's attendance rows, then the user row.
      Schedule rows stay; the answer is 200 whether or not the user existed. */
  method DeleteEmployee(db: Database, id: int)
    requires db.Valid()
    modifies db
    ensures db.Valid()
    ensures db.attendance == AttendanceWithout(old(db.attendance), id)
    ensures db.users == UsersWithout(old(db.users), id)
    ensures db.schedule == old(db.schedule)
    ensures db.nextUserId == old(db.nextUserId) && db.nextAttendanceId == old(db.nextAttendanceId)
  {
    DeleteKeepsConsistent(db.users, db.attendance, db.nextUserId, db.nextAttendanceId, id);
    db.attendance := AttendanceWithout(db.attendance, id);
    db.users := UsersWithout(db.users, id);
  }

  // ---------------------------------------------------------------------------
  // Attendance list

  /** The `hours` column: '-' for an open row, otherwise hours and minutes. */
  datatype HoursText = Dash | HoursMinutes(hours: int, minutes: int)

  /** `Math.floor(diffMs / 3600000)` hours and `Math.floor((diffMs % 3600000) / 60000)`
      minutes, with JavaScript's sign-of-dividend `%`. */
  function DurationText(checkIn: int, checkOut: Option<int>): (t: HoursText)
    ensures t.Dash? <==> checkOut.None?
    ensures t.HoursMinutes? ==> t.hours * MsPerHour <= checkOut.value - checkIn < (t.hours + 1) * MsPerHour
    ensures t.HoursMinutes? ==> -60 <= t.minutes < 60
  {
    match checkOut
    case None => Dash
    case Some(out) =>
      var diffMs := out - checkIn;
      HoursMinutes(diffMs / MsPerHour, JsRem(diffMs, MsPerHour) / MsPerMinute)
  }

  /** For a row closed after it opened: whole hours plus 0..59 minutes, which
      together are the whole minutes worked. */
  lemma DurationTextSplitsMinutes(checkIn: int, out: int)
    requires checkIn <= out
    ensures var t := DurationText(checkIn, Some(out));
      && t.HoursMinutes? && t.hours >= 0 && 0 <= t.minutes <= 59
      && t.hours * 60 + t.minutes == (out - checkIn) / MsPerMinute
  {
    var d := out - checkIn;
    var h, r := d / MsPerHour, d % MsPerHour;
    assert d == h * MsPerHour + r;
    var m := r / MsPerMinute;
    assert r == m * MsPerMinute + r % MsPerMinute;
    assert d == (h * 60 + m) * MsPerMinute + r % MsPerMinute;
  }

  /** A row closed before it opened shows negative hours, and minutes between
      -60 and 0 (`Math.floor` of a negative remainder rounds down). */
  lemma DurationTextNegative(checkIn: int, out: int)
    requires out < checkIn
    ensures var t := DurationText(checkIn, Some(out));
      t.HoursMinutes? && t.hours < 0 && -60 <= t.minutes <= 0
  {
  }

  /** A row of the joined list query: attendance id, user name, times. */
  datatype ListedRow = ListedRow(id: int, name: string, checkIn: int, checkOut: Option<int>)

  /** A formatted row; `out == None` is shown as 근무 중 (still working). The
      locale date and time strings are represented by the timestamps. */
  datatype FormattedRecord = FormattedRecord(id: int, name: string, checkIn: int, out: Option<int>, hours: HoursText)

  function FormatRecord(r: ListedRow): (f: FormattedRecord)
    ensures f.id == r.id && f.name == r.name
    ensures f.out.None? <==> f.hours.Dash?
  {
    FormattedRecord(r.id, r.name, r.checkIn, r.checkOut, DurationText(r.checkIn, r.checkOut))
  }

  /** `records.map(...)`: one formatted row per row, in query order. */
  function FormatRecords(rows: seq<ListedRow>): (fs: seq<FormattedRecord>)
    ensures |fs| == |rows|
    ensures forall k :: 0 <= k < |rows| ==> fs[k] == FormatRecord(rows[k])
  {
    seq(|rows|, k requires 0 <= k < |rows| => FormatRecord(rows[k]))
  }
}
