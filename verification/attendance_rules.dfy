/**
 * The attendance transitions and queries as functions of the stored
 * records: check-in, live checkout, manual checkout, delete, the single
 * record reads, and the history and export listings. Each transition
 * answers the new store together with the saved record or a tagged
 * rejection.
 */
module AttendanceRules {
  import opened Wrappers
  import opened DateUtils
  import opened AttendanceModel

  /** Store-assigned record identity. */
  type RecordId = nat

  /** The stored records by identity. */
  type Db = map<RecordId, Record>

  predicate OnDay(r: Record, userId: UserId, date: string)
  {
    r.userId == userId && r.date == date
  }

  /** The unique (userId, date) index: no two records share a user and a day. */
  ghost predicate UniqueDays(db: Db)
  {
    forall i, j :: i in db && j in db && OnDay(db[i], db[j].userId, db[j].date) ==> i == j
  }

  /** Every invariant of the store: the unique index, the schema and the record lifecycle. */
  ghost predicate WellFormed(db: Db)
  {
    UniqueDays(db) && forall i :: i in db ==> SchemaValid(db[i]) && Consistent(db[i])
  }

  /** The record of `userId` for day `date`, if there is one. */
  function FindByDay(db: Db, userId: UserId, date: string): (found: Option<RecordId>)
    requires UniqueDays(db)
    ensures found.Some? ==> found.value in db && OnDay(db[found.value], userId, date)
    ensures found.None? ==> forall i :: i in db ==> !OnDay(db[i], userId, date)
  {
    if exists i :: i in db && OnDay(db[i], userId, date) then
      var i :| i in db && OnDay(db[i], userId, date);
      Some(i)
    else
      None
  }

  /** Why a checkout time is refused. */
  datatype Violation = NotAfterCheckIn | DifferentDate

  /** What was not found. */
  datatype Missing = NoCheckInToday | NoSuchRecord

  datatype Rejection =
    | Conflict(existing: Record)            // already checked in for that day
    | AlreadyCheckedOut(current: Record)    // live checkout after a checkout
    | NotFound(missing: Missing)
    | InvalidTransition(violation: Violation)
    | ValidationFailed                      // the schema refuses the new record (note too long)

  datatype Saved = Saved(id: RecordId, record: Record)

  /** The store after an operation, and what the operation answers. */
  datatype Step = Step(db: Db, result: Result<Saved, Rejection>)

  // ---------------------------------------------------------------------------
  // Transitions

  /**
   * Check in at `checkInAt`, or at `now` when none is given, on the day that
   * instant falls on in the user's zone, unless that day already has a record.
   */
  function CheckIn(db: Db, freshId: RecordId, userId: UserId, zone: Option<TimeZone>, durationMinutes: int,
                   now: Instant, checkInAt: Option<Instant>, note: Option<string>): Step
    requires UniqueDays(db) && freshId !in db
  {
    var t := checkInAt.GetOr(now);
    var date := FormatDateToLocal(t, zone);
    match FindByDay(db, userId, date)
    case Some(id) => Step(db, Failure(Conflict(db[id])))
    case None =>
      var r := NewRecord(userId, date, t, ComputeCheckout(t, durationMinutes), note);
      if SchemaValid(r) then Step(db[freshId := r], Success(Saved(freshId, r)))
      else Step(db, Failure(ValidationFailed))
  }

  /**
   * Live checkout of today's record (today by the clock `now`, in the user's
   * zone) at `checkOutAt`, or at `now` when none is given.
   */
  function CheckOut(db: Db, userId: UserId, zone: Option<TimeZone>, now: Instant,
                    checkOutAt: Option<Instant>): Step
    requires UniqueDays(db)
  {
    var t := checkOutAt.GetOr(now);
    match FindByDay(db, userId, GetTodayDate(now, zone))
    case None => Step(db, Failure(NotFound(NoCheckInToday)))
    case Some(id) =>
      var r := db[id];
      if r.isCheckedOut then Step(db, Failure(AlreadyCheckedOut(r)))
      else if t <= r.checkInAt then Step(db, Failure(InvalidTransition(NotAfterCheckIn)))
      else if FormatDateToLocal(t, zone) != r.date then Step(db, Failure(InvalidTransition(DifferentDate)))
      else
        var updated := r.(checkOutAt := Some(t), isCheckedOut := true);
        Step(db[id := updated], Success(Saved(id, updated)))
  }

  /** Retroactive checkout of record `id`, which must belong to `userId`. */
  function ManualCheckOut(db: Db, userId: UserId, zone: Option<TimeZone>, id: RecordId,
                          manualCheckOutAt: Instant): Step
  {
    if id !in db || db[id].userId != userId then Step(db, Failure(NotFound(NoSuchRecord)))
    else
      var r := db[id];
      if manualCheckOutAt <= r.checkInAt then Step(db, Failure(InvalidTransition(NotAfterCheckIn)))
      else if FormatDateToLocal(manualCheckOutAt, zone) != r.date then
        Step(db, Failure(InvalidTransition(DifferentDate)))
      else
        var updated := r.(manualCheckOutAt := Some(manualCheckOutAt), isCheckedOut := true);
        Step(db[id := updated], Success(Saved(id, updated)))
  }

  /** Removal of record `id`, which must belong to `userId`. */
  function DeleteAttendance(db: Db, userId: UserId, id: RecordId): Step
  {
    if id in db && db[id].userId == userId then Step(db - {id}, Success(Saved(id, db[id])))
    else Step(db, Failure(NotFound(NoSuchRecord)))
  }

  // ---------------------------------------------------------------------------
  // Single-record reads

  /** Today's record of `userId`, or none. */
  function GetTodayAttendance(db: Db, userId: UserId, zone: Option<TimeZone>, now: Instant): (r: Option<Record>)
    requires UniqueDays(db)
    ensures r.Some? <==> exists i :: i in db && OnDay(db[i], userId, GetTodayDate(now, zone))
    ensures r.Some? ==> r.value in db.Values && OnDay(r.value, userId, GetTodayDate(now, zone))
  {
    match FindByDay(db, userId, GetTodayDate(now, zone))
    case Some(i) => Some(db[i])
    case None => None
  }

  /** Record `id` if it belongs to `userId`. */
  function GetAttendanceById(db: Db, userId: UserId, id: RecordId): (r: Result<Record, Rejection>)
    ensures r.Success? <==> id in db && db[id].userId == userId
    ensures r.Success? ==> r.value == db[id]
    ensures r.Failure? ==> r.error == NotFound(NoSuchRecord)
  {
    if id in db && db[id].userId == userId then Success(db[id]) else Failure(NotFound(NoSuchRecord))
  }
}
