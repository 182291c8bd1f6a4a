/** `POST /api/schedule`: one schedule row per calendar day of a date range. */
module SchedulePost {
  import opened Base
  import opened Tables

  /** A date field of the request: absent or empty (falsy), present but not a
      date `new Date` can parse, or a calendar-day number. */
  datatype DateField = Missing | Invalid | Day(n: int)

  /** The request body; `userId == 0` and `""` stand for falsy fields. */
  datatype ScheduleRequest = ScheduleRequest(
    userId: int, startDate: DateField, endDate: DateField, startTime: string, endTime: string)

  /** The `if (!userId || !startDate || ...)` guard: some required field is falsy. */
  predicate MissingAny(req: ScheduleRequest): (missing: bool)
    ensures req.userId == 0 || req.startTime == "" || req.endTime == "" ==> missing
    ensures req.userId != 0 && req.startDate.Day? && req.endDate.Day? && req.startTime != "" && req.endTime != "" ==> !missing
    ensures req.startDate.Invalid? && req.endDate.Invalid? && req.userId != 0 && req.startTime != "" && req.endTime != "" ==> !missing
  {
    req.userId == 0 || req.startDate.Missing? || req.endDate.Missing? || req.startTime == "" || req.endTime == ""
  }

  /** The rows for days `first` through `last`, in ascending date order. */
  function DayRows(userId: int, first: int, last: int, startTime: string, endTime: string): seq<ScheduleRow>
    decreases last - first
  {
    if first > last then [] else [ScheduleRow(userId, first, startTime, endTime)] + DayRows(userId, first + 1, last, startTime, endTime)
  }

  /** Exactly one row per day of [first, last], in order, all sharing the user and the times. */
  lemma {:induction false} DayRowsShape(userId: int, first: int, last: int, startTime: string, endTime: string)
    ensures |DayRows(userId, first, last, startTime, endTime)| == if first <= last then last - first + 1 else 0
    ensures forall i :: 0 <= i < |DayRows(userId, first, last, startTime, endTime)| ==>
                          DayRows(userId, first, last, startTime, endTime)[i] == ScheduleRow(userId, first + i, startTime, endTime)
    decreases last - first
  {
    if first <= last {
      var rest := DayRows(userId, first + 1, last, startTime, endTime);
      assert DayRows(userId, first, last, startTime, endTime) == [ScheduleRow(userId, first, startTime, endTime)] + rest;
      DayRowsShape(userId, first + 1, last, startTime, endTime);
    }
  }

  /** Every day of the range gets a row and no other day does. */
  lemma DayRowsCoverRange(userId: int, first: int, last: int, startTime: string, endTime: string, day: int)
    ensures (exists i :: 0 <= i < |DayRows(userId, first, last, startTime, endTime)|
                         && DayRows(userId, first, last, startTime, endTime)[i].date == day)
            <==> first <= day <= last
  {
    DayRowsShape(userId, first, last, startTime, endTime);
    if first <= day <= last {
      assert DayRows(userId, first, last, startTime, endTime)[day - first].date == day;
    }
  }

  lemma {:induction false} DayRowsSnoc(userId: int, first: int, last: int, startTime: string, endTime: string)
    requires first <= last
    ensures DayRows(userId, first, last, startTime, endTime)
         == DayRows(userId, first, last - 1, startTime, endTime) + [ScheduleRow(userId, last, startTime, endTime)]
    decreases last - first
  {
    if first < last {
      DayRowsSnoc(userId, first + 1, last, startTime, endTime);
    }
  }

  /** The rows a valid request inserts: none unless both dates parse. */
  function RequestedRows(req: ScheduleRequest): seq<ScheduleRow>
  {
    if req.startDate.Day? && req.endDate.Day? then
      DayRows(req.userId, req.startDate.n, req.endDate.n, req.startTime, req.endTime)
    else []
  }

  /** The handler: validate, then walk `currentDate` first the start day last the
      end day inserting one row per day. An unparsable date makes the loop
      guard false at once, so nothing is inserted and the answer is still 201. */
  method PostSchedule(db: Database, req: ScheduleRequest) returns (res: Result<()>)
    requires db.Valid()
    modifies db
    ensures db.Valid()
    ensures db.users == old(db.users) && db.attendance == old(db.attendance)
    ensures db.nextUserId == old(db.nextUserId) && db.nextAttendanceId == old(db.nextAttendanceId)
    ensures MissingAny(req) ==> res == Err(MissingField) && db.schedule == old(db.schedule)
    ensures !MissingAny(req) ==> res == Ok(()) && db.schedule == old(db.schedule) + RequestedRows(req)
  {
    if MissingAny(req) {
      return Err(MissingField);
    }
    if req.startDate.Day? && req.endDate.Day? {
      var start, end := req.startDate.n, req.endDate.n;
      var currentDate := start;
      while currentDate <= end
        invariant currentDate == start || start < currentDate <= end + 1
        invariant db.schedule == old(db.schedule) + DayRows(req.userId, start, currentDate - 1, req.startTime, req.endTime)
        invariant db.users == old(db.users) && db.attendance == old(db.attendance)
        invariant db.nextUserId == old(db.nextUserId) && db.nextAttendanceId == old(db.nextAttendanceId)
      {
        DayRowsSnoc(req.userId, start, currentDate, req.startTime, req.endTime);
        db.schedule := db.schedule + [ScheduleRow(req.userId, currentDate, req.startTime, req.endTime)];
        currentDate := currentDate + 1;
      }
      assert DayRows(req.userId, start, currentDate - 1, req.startTime, req.endTime) == RequestedRows(req);
    } else {
      assert RequestedRows(req) == [];
      assert db.schedule == old(db.schedule) + [];
    }
    res := Ok(());
  }
}
