/**
 * The attendance collection as the controller changes it: a store object
 * whose records the check-in, checkout and delete handlers update in place,
 * each step by step as the handler does (look the record up, test the
 * guards in order, then write), and each proved to do what the matching
 * transition of `AttendanceRules` describes.
 *
 * The signed-in user's id, zone and default work duration, the request
 * body's fields and the clock reading are parameters of each method.
 */
module AttendanceController {
  import opened Wrappers
  import opened DateUtils
  import opened AttendanceModel
  import opened AttendanceRules
  import TransitionProperties

  class AttendanceStore {
    /** The stored records by identity. */
    var records: Db
    /** The identity the next created record receives. */
    var nextId: RecordId

    /** The collection's invariants hold, and no stored record uses an identity not yet handed out. */
    ghost predicate Valid()
      reads this
    {
      WellFormed(records) && forall i :: i in records ==> i < nextId
    }

    /** An empty collection. */
    constructor ()
      ensures Valid() && records == map[] && nextId == 0
    {
      records := map[];
      nextId := 0;
    }

    /** Check in at `checkInAt`, or at `now`, unless that local day already has a record of `userId`. */
    method CheckIn(userId: UserId, zone: Option<TimeZone>, durationMinutes: int, now: Instant,
                   checkInAt: Option<Instant>, note: Option<string>)
      returns (result: Result<Saved, Rejection>)
      requires Valid()
      modifies this
      ensures Valid()
      ensures var s := AttendanceRules.CheckIn(old(records), old(nextId), userId, zone, durationMinutes, now,
                                               checkInAt, note);
              records == s.db && result == s.result
      ensures result.Success? ==> result.value.id == old(nextId) && nextId == old(nextId) + 1
      ensures result.Failure? ==> unchanged(this)
    {
      TransitionProperties.CheckInKeepsWellFormed(records, nextId, userId, zone, durationMinutes, now,
                                                  checkInAt, note);
      var checkInTime := if checkInAt.Some? then checkInAt.value else now;
      var dateString := FormatDateToLocal(checkInTime, zone);
      var existing := FindByDay(records, userId, dateString);
      if existing.Some? {
        return Failure(Conflict(records[existing.value]));
      }
      var attendance := NewRecord(userId, dateString, checkInTime, ComputeCheckout(checkInTime, durationMinutes), note);
      if !SchemaValid(attendance) {
        return Failure(ValidationFailed);
      }
      records := records[nextId := attendance];
      result := Success(Saved(nextId, attendance));
      nextId := nextId + 1;
    }

    /** Live checkout of today's record of `userId` at `checkOutAt`, or at `now`. */
    method CheckOut(userId: UserId, zone: Option<TimeZone>, now: Instant, checkOutAt: Option<Instant>)
      returns (result: Result<Saved, Rejection>)
      requires Valid()
      modifies this
      ensures Valid() && nextId == old(nextId)
      ensures var s := AttendanceRules.CheckOut(old(records), userId, zone, now, checkOutAt);
              records == s.db && result == s.result
    {
      TransitionProperties.CheckOutKeepsWellFormed(records, userId, zone, now, checkOutAt);
      var checkOutTime := if checkOutAt.Some? then checkOutAt.value else now;
      var todayDate := GetTodayDate(now, zone);
      var found := FindByDay(records, userId, todayDate);
      if found.None? {
        return Failure(NotFound(NoCheckInToday));
      }
      var id := found.value;
      var attendance := records[id];
      if attendance.isCheckedOut {
        return Failure(AlreadyCheckedOut(attendance));
      }
      if checkOutTime <= attendance.checkInAt {
        return Failure(InvalidTransition(NotAfterCheckIn));
      }
      if FormatDateToLocal(checkOutTime, zone) != attendance.date {
        return Failure(InvalidTransition(DifferentDate));
      }
      attendance := attendance.(checkOutAt := Some(checkOutTime));
      attendance := attendance.(isCheckedOut := true);
      records := records[id := attendance];
      result := Success(Saved(id, attendance));
    }

    /** Retroactive checkout of record `id` of `userId` at `manualCheckOutAt`. */
    method ManualCheckOut(userId: UserId, zone: Option<TimeZone>, id: RecordId, manualCheckOutAt: Instant)
      returns (result: Result<Saved, Rejection>)
      requires Valid()
      modifies this
      ensures Valid() && nextId == old(nextId)
      ensures var s := AttendanceRules.ManualCheckOut(old(records), userId, zone, id, manualCheckOutAt);
              records == s.db && result == s.result
    {
      TransitionProperties.ManualCheckOutKeepsWellFormed(records, userId, zone, id, manualCheckOutAt);
      if id !in records || records[id].userId != userId {
        return Failure(NotFound(NoSuchRecord));
      }
      var attendance := records[id];
      if manualCheckOutAt <= attendance.checkInAt {
        return Failure(InvalidTransition(NotAfterCheckIn));
      }
      if FormatDateToLocal(manualCheckOutAt, zone) != attendance.date {
        return Failure(InvalidTransition(DifferentDate));
      }
      attendance := attendance.(manualCheckOutAt := Some(manualCheckOutAt));
      attendance := attendance.(isCheckedOut := true);
      records := records[id := attendance];
      result := Success(Saved(id, attendance));
    }

    /** Removal of record `id` of `userId`. */
    method DeleteAttendance(userId: UserId, id: RecordId) returns (result: Result<Saved, Rejection>)
      requires Valid()
      modifies this
      ensures Valid() && nextId == old(nextId)
      ensures var s := AttendanceRules.DeleteAttendance(old(records), userId, id);
              records == s.db && result == s.result
    {
      TransitionProperties.DeleteKeepsWellFormed(records, userId, id);
      if id !in records || records[id].userId != userId {
        return Failure(NotFound(NoSuchRecord));
      }
      result := Success(Saved(id, records[id]));
      records := records - {id};
    }
  }
}
