/** Shared vocabulary of the server routes: optional values, the error
    outcomes the handlers answer with, and local-time arithmetic on
    millisecond timestamps. */
module Base {

  datatype Option<+T> = None | Some(value: T)

  /** The failures a handler reports, each with the HTTP status it sends. */
  datatype ApiError =
    | MissingField      // a required request field is falsy
    | AlreadyCheckedIn  // check-in while an open attendance row exists
    | NotCheckedIn      // check-out without an open attendance row
    | UserNotFound      // no Users row with the given id
    | DuplicateLoginId  // employee add with a login id already taken

  function HttpStatus(e: ApiError): (code: int)
    ensures code == 404 <==> e == UserNotFound
    ensures code == 400 <==> e != UserNotFound
  {
    match e
    case UserNotFound => 404
    case _ => 400
  }

  datatype Result<+T> = Ok(value: T) | Err(error: ApiError)

  /** Timestamps are integer milliseconds of local wall-clock time. */
  const MsPerMinute: int := 60000
  const MsPerHour: int := 3600000
  const MsPerDay: int := 86400000

  /** Local midnight of the day containing `t` (what `setHours(0, 0, 0, 0)` gives). */
  function DayStart(t: int): (d: int)
    ensures d <= t < d + MsPerDay
    ensures d % MsPerDay == 0
  {
    t - t % MsPerDay
  }

  /** Milliseconds elapsed since local midnight. */
  function TimeOfDay(t: int): (x: int)
    ensures 0 <= x < MsPerDay
    ensures DayStart(t) + x == t
  {
    t % MsPerDay
  }

  /** A midnight-aligned `d` below `t` by less than a day is `t`'s day start. */
  lemma DayStartUnique(d: int, t: int)
    requires d % MsPerDay == 0
    requires d <= t < d + MsPerDay
    ensures DayStart(t) == d
  {
    var k := d / MsPerDay;
    assert d == k * MsPerDay;
    var x := t - d;
    assert t == k * MsPerDay + x && 0 <= x < MsPerDay;
    assert t % MsPerDay == x;
  }

  /** JavaScript's `%`: the remainder takes the sign of the dividend, and
      together with the truncating quotient it recomposes the dividend. */
  function JsRem(a: int, b: int): (r: int)
    requires b > 0
    ensures a >= 0 ==> r == a % b
    ensures a < 0 ==> -b < r <= 0
    ensures a == b * JsQuot(a, b) + r
  {
    if a >= 0 then a % b
    else
      assert -a == b * ((-a) / b) + (-a) % b;
      -((-a) % b)
  }

  /** The quotient rounded toward zero, as `Math.trunc(a / b)`. */
  function JsQuot(a: int, b: int): int
    requires b > 0
  {
    if a >= 0 then a / b else -((-a) / b)
  }

  /** The clauses of `JsRem` leave no choice: any remainder with the
      dividend's sign, below `b` in size, that recomposes `a` is `JsRem(a, b)`. */
  lemma JsRemUnique(a: int, b: int, q: int, r: int)
    requires b > 0
    requires a == b * q + r
    requires a >= 0 ==> 0 <= r < b
    requires a < 0 ==> -b < r <= 0
    ensures r == JsRem(a, b)
  {
    var q', r' := JsQuot(a, b), JsRem(a, b);
    var d := q - q';
    assert b * q - b * q' == b * d;
    assert b * d == r' - r;
    if d != 0 {
      MulAwayFromZero(b, d);
    }
  }

  /** A nonzero multiple of `b` is at least `b` away from zero. */
  lemma MulAwayFromZero(b: int, d: int)
    requires b > 0 && d != 0
    ensures b * d >= b || b * d <= -b
  {
  }

  lemma JsRemExamples()
    ensures JsRem(7, 3) == 1 && JsRem(-7, 3) == -1 && JsRem(-6, 3) == 0
    ensures JsRem(-90 * MsPerMinute, MsPerHour) == -30 * MsPerMinute
  {
  }

  function Min(a: int, b: int): int { if a < b then a else b }
  function Max(a: int, b: int): int { if a < b then b else a }
}
