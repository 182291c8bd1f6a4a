/** The database the route handlers share: the Users, Attendance and
    schedule tables, kept as sequences of rows in table order, and the
    invariant every handler that writes them preserves. */
module Tables {
  import opened Base

  datatype Role = Worker | Manager

  /** A Users row. `id` is the auto-increment key, `loginId` the login name,
      `workStartTime` the lateness threshold in milliseconds after midnight. */
  datatype User = User(id: int, loginId: string, password: string, name: string,
                       role: Role, hourlyWage: int, workStartTime: Option<int>)

  /** An Attendance row; `checkOut == None` is an open session. */
  datatype Attendance = Attendance(id: int, userId: int, checkIn: int, checkOut: Option<int>, isLate: bool)

  /** A schedule row; `date` is a calendar-day number. */
  datatype ScheduleRow = ScheduleRow(userId: int, date: int, startTime: string, endTime: string)

  /** `SELECT ... FROM users WHERE id = ?`, first row. */
  function FindUser(users: seq<User>, id: int): (r: Option<User>)
    ensures r.Some? ==> r.value in users && r.value.id == id
    ensures r.None? <==> forall u :: u in users ==> u.id != id
  {
    if users == [] then None
    else if users[0].id == id then Some(users[0])
    else FindUser(users[1..], id)
  }

  predicate IsOpenOf(a: Attendance, userId: int)
  {
    a.userId == userId && a.checkOut.None?
  }

  /** `SELECT id FROM attendance WHERE user_id = ? AND check_out_time IS NULL` is non-empty. */
  predicate HasOpen(att: seq<Attendance>, userId: int): (has: bool)
    ensures has <==> exists a :: a in att && a.userId == userId && a.checkOut.None?
  {
    exists k :: 0 <= k < |att| && IsOpenOf(att[k], userId)
  }

  /** Number of open rows of one user. */
  function OpenCount(att: seq<Attendance>, userId: int): nat
  {
    if att == [] then 0
    else OpenCount(att[..|att| - 1], userId) + (if IsOpenOf(att[|att| - 1], userId) then 1 else 0)
  }

  lemma {:induction false} OpenCountPositive(att: seq<Attendance>, userId: int)
    ensures OpenCount(att, userId) > 0 <==> HasOpen(att, userId)
  {
    if att != [] {
      var init := att[..|att| - 1];
      OpenCountPositive(init, userId);
      if HasOpen(init, userId) {
        var k :| 0 <= k < |init| && IsOpenOf(init[k], userId);
        assert att[k] == init[k];
      }
      if HasOpen(att, userId) && !IsOpenOf(att[|att| - 1], userId) {
        var k :| 0 <= k < |att| && IsOpenOf(att[k], userId);
        assert init[k] == att[k];
      }
    }
  }

  lemma {:induction false} OpenCountAppend(att: seq<Attendance>, a: Attendance, userId: int)
    ensures OpenCount(att + [a], userId) == OpenCount(att, userId) + (if IsOpenOf(a, userId) then 1 else 0)
  {
    assert (att + [a])[..|att|] == att;
  }

  /** Closing row `k` never adds an open row for anyone. */
  lemma {:induction false} OpenCountClose(att: seq<Attendance>, k: int, t: int, userId: int)
    requires 0 <= k < |att|
    ensures OpenCount(att[k := att[k].(checkOut := Some(t))], userId)
         == OpenCount(att, userId) - (if IsOpenOf(att[k], userId) then 1 else 0)
    decreases |att|
  {
    var att' := att[k := att[k].(checkOut := Some(t))];
    var n := |att| - 1;
    if k < n {
      OpenCountClose(att[..n], k, t, userId);
      assert att'[..n] == att[..n][k := att[k].(checkOut := Some(t))];
    } else {
      assert att'[..n] == att[..n];
    }
  }

  /** At most one open session per user: the ledger invariant. */
  ghost predicate OneOpenPerUser(att: seq<Attendance>)
  {
    forall u :: OpenCount(att, u) <= 1
  }

  /** The table invariant: one open session per user, keys distinct and
      below the next auto-increment value, and login ids naming one user each. */
  ghost predicate Consistent(users: seq<User>, att: seq<Attendance>, nextUserId: int, nextAttendanceId: int)
  {
    && OneOpenPerUser(att)
    && UsersConsistent(users, nextUserId)
    && 0 < nextAttendanceId
    && (forall r :: r in att ==> 0 < r.id < nextAttendanceId)
    && AttendanceIdsDistinct(att)
  }

  ghost predicate UsersConsistent(users: seq<User>, nextUserId: int)
  {
    && 0 < nextUserId
    && (forall u :: u in users ==> 0 < u.id < nextUserId)
    && (forall a, b :: a in users && b in users && a.loginId == b.loginId ==> a == b)
    && UserIdsDistinct(users)
  }

  /** No two Attendance rows share a key, so `WHERE id = ?` names one row. */
  ghost predicate AttendanceIdsDistinct(att: seq<Attendance>)
  {
    forall i, j :: 0 <= i < j < |att| ==> att[i].id != att[j].id
  }

  /** No two Users rows share a key. */
  ghost predicate UserIdsDistinct(users: seq<User>)
  {
    forall i, j :: 0 <= i < j < |users| ==> users[i].id != users[j].id
  }

  /** Appending an open row for a user with no open row keeps the invariant. */
  lemma AppendOpenKeepsConsistent(users: seq<User>, att: seq<Attendance>, nu: int, na: int, row: Attendance)
    requires Consistent(users, att, nu, na)
    requires row.id == na && row.checkOut.None? && !HasOpen(att, row.userId)
    ensures Consistent(users, att + [row], nu, na + 1)
  {
    OpenCountPositive(att, row.userId);
    forall u ensures OpenCount(att + [row], u) <= 1 {
      OpenCountAppend(att, row, u);
    }
    forall r | r in att + [row] ensures 0 < r.id < na + 1 {
      assert r in att || r == row;
    }
    forall i, j | 0 <= i < j < |att + [row]| ensures (att + [row])[i].id != (att + [row])[j].id {
      if j == |att| {
        assert att[i] in att;
      }
    }
  }

  /** Closing one row keeps the invariant. */
  lemma CloseKeepsConsistent(users: seq<User>, att: seq<Attendance>, nu: int, na: int, k: int, t: int)
    requires Consistent(users, att, nu, na)
    requires 0 <= k < |att|
    ensures Consistent(users, att[k := att[k].(checkOut := Some(t))], nu, na)
  {
    var att' := att[k := att[k].(checkOut := Some(t))];
    forall u ensures OpenCount(att', u) <= 1 {
      OpenCountClose(att, k, t, u);
    }
    forall r | r in att' ensures 0 < r.id < na {
      var j :| 0 <= j < |att'| && att'[j] == r;
      assert att[j] in att;
    }
    assert forall i :: 0 <= i < |att| ==> att'[i].id == att[i].id;
  }

  class Database {
    var users: seq<User>
    var attendance: seq<Attendance>
    var schedule: seq<ScheduleRow>
    var nextUserId: int        // next auto-increment key of Users
    var nextAttendanceId: int  // next auto-increment key of Attendance

    ghost predicate Valid()
      reads this
    {
      Consistent(users, attendance, nextUserId, nextAttendanceId)
    }

    constructor ()
      ensures Valid()
      ensures users == [] && attendance == [] && schedule == []
      ensures nextUserId == 1 && nextAttendanceId == 1
    {
      users, attendance, schedule := [], [], [];
      nextUserId, nextAttendanceId := 1, 1;
    }
  }
}
