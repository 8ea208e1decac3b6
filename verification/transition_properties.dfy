/**
 * What the transitions promise: rejections leave the store as it was, the
 * live checkout's guards apply in a fixed order, successes change one record
 * and only the fields they name, and every transition keeps the store's
 * invariants.
 */
module TransitionProperties {
  import opened Wrappers
  import opened DateUtils
  import opened AttendanceModel
  import opened AttendanceRules

  /** The day a check-in lands on: that of the given instant, or of the clock. */
  function CheckInDay(zone: Option<TimeZone>, now: Instant, checkInAt: Option<Instant>): string
  {
    FormatDateToLocal(checkInAt.GetOr(now), zone)
  }

  // ---------------------------------------------------------------------------
  // Check-in

  /** A second check-in for a day answers the day's record and changes nothing. */
  lemma CheckInConflict(db: Db, freshId: RecordId, userId: UserId, zone: Option<TimeZone>, durationMinutes: int,
                        now: Instant, checkInAt: Option<Instant>, note: Option<string>, existing: RecordId)
    requires UniqueDays(db) && freshId !in db
    requires existing in db && OnDay(db[existing], userId, CheckInDay(zone, now, checkInAt))
    ensures CheckIn(db, freshId, userId, zone, durationMinutes, now, checkInAt, note)
            == Step(db, Failure(Conflict(db[existing])))
  {
  }

  /** A check-in for a free day stores exactly one new record with the stated fields. */
  lemma CheckInCreates(db: Db, freshId: RecordId, userId: UserId, zone: Option<TimeZone>, durationMinutes: int,
                       now: Instant, checkInAt: Option<Instant>, note: Option<string>)
    requires UniqueDays(db) && freshId !in db
    requires forall i :: i in db ==> !OnDay(db[i], userId, CheckInDay(zone, now, checkInAt))
    requires note.Some? ==> Utf16Length(note.value) <= MaxNoteLength
    ensures var s := CheckIn(db, freshId, userId, zone, durationMinutes, now, checkInAt, note);
            var t := checkInAt.GetOr(now);
            && s.result.Success? && s.result.value.id == freshId
            && s.db == db[freshId := s.result.value.record]
            && |s.db| == |db| + 1
            && s.result.value.record == Record(userId, FormatDateToLocal(t, zone), t, None,
                                               t + durationMinutes * MsPerMinute, None, note, false)
  {
  }

  /** A note longer than the schema allows is refused, and nothing is stored. */
  lemma CheckInRejectsLongNote(db: Db, freshId: RecordId, userId: UserId, zone: Option<TimeZone>,
                               durationMinutes: int, now: Instant, checkInAt: Option<Instant>, note: Option<string>)
    requires UniqueDays(db) && freshId !in db
    requires forall i :: i in db ==> !OnDay(db[i], userId, CheckInDay(zone, now, checkInAt))
    requires note.Some? && Utf16Length(note.value) > MaxNoteLength
    ensures CheckIn(db, freshId, userId, zone, durationMinutes, now, checkInAt, note)
            == Step(db, Failure(ValidationFailed))
  {
  }

  /**
   * The note limit counts UTF-16 code units: more than 250 characters beyond
   * U+FFFF already exceed it, and such a note is refused.
   */
  lemma CheckInCountsUtf16Units(db: Db, freshId: RecordId, userId: UserId, zone: Option<TimeZone>,
                                durationMinutes: int, now: Instant, checkInAt: Option<Instant>, note: string)
    requires UniqueDays(db) && freshId !in db
    requires forall i :: i in db ==> !OnDay(db[i], userId, CheckInDay(zone, now, checkInAt))
    requires 2 * |note| > MaxNoteLength && forall i :: 0 <= i < |note| ==> note[i] as int >= 0x10000
    ensures CheckIn(db, freshId, userId, zone, durationMinutes, now, checkInAt, Some(note))
            == Step(db, Failure(ValidationFailed))
  {
    CheckInRejectsLongNote(db, freshId, userId, zone, durationMinutes, now, checkInAt, Some(note));
  }

  /** Check-in keeps every store invariant. */
  lemma CheckInKeepsWellFormed(db: Db, freshId: RecordId, userId: UserId, zone: Option<TimeZone>,
                               durationMinutes: int, now: Instant, checkInAt: Option<Instant>, note: Option<string>)
    requires WellFormed(db) && freshId !in db
    ensures WellFormed(CheckIn(db, freshId, userId, zone, durationMinutes, now, checkInAt, note).db)
  {
    var s := CheckIn(db, freshId, userId, zone, durationMinutes, now, checkInAt, note);
    if s.result.Success? {
      FreshRecordStatus(userId, CheckInDay(zone, now, checkInAt), checkInAt.GetOr(now),
                        ComputeCheckout(checkInAt.GetOr(now), durationMinutes), note, now);
    }
  }

  /** After a successful check-in the new record is the only one of its user and day. */
  lemma CheckInOnlyRecordOfDay(db: Db, freshId: RecordId, userId: UserId, zone: Option<TimeZone>,
                               durationMinutes: int, now: Instant, checkInAt: Option<Instant>, note: Option<string>)
    requires UniqueDays(db) && freshId !in db
    requires CheckIn(db, freshId, userId, zone, durationMinutes, now, checkInAt, note).result.Success?
    ensures var s := CheckIn(db, freshId, userId, zone, durationMinutes, now, checkInAt, note);
            forall i :: i in s.db && OnDay(s.db[i], userId, CheckInDay(zone, now, checkInAt)) <==> i == freshId
  {
  }

  /** Checking in twice for one day: the second attempt answers the first record and stores nothing. */
  lemma SecondCheckInConflicts(db: Db, firstId: RecordId, secondId: RecordId, userId: UserId,
                               zone: Option<TimeZone>, durationMinutes: int, durationMinutes': int,
                               now: Instant, now': Instant, checkInAt: Option<Instant>, checkInAt': Option<Instant>,
                               note: Option<string>, note': Option<string>)
    requires UniqueDays(db) && firstId !in db && secondId !in db && firstId != secondId
    requires CheckIn(db, firstId, userId, zone, durationMinutes, now, checkInAt, note).result.Success?
    requires CheckInDay(zone, now', checkInAt') == CheckInDay(zone, now, checkInAt)
    ensures var s := CheckIn(db, firstId, userId, zone, durationMinutes, now, checkInAt, note);
            UniqueDays(s.db) &&
            CheckIn(s.db, secondId, userId, zone, durationMinutes', now', checkInAt', note')
            == Step(s.db, Failure(Conflict(s.result.value.record)))
  {
    var s := CheckIn(db, firstId, userId, zone, durationMinutes, now, checkInAt, note);
    CheckInOnlyRecordOfDay(db, firstId, userId, zone, durationMinutes, now, checkInAt, note);
    CheckInConflict(s.db, secondId, userId, zone, durationMinutes', now', checkInAt', note', firstId);
  }

  // ---------------------------------------------------------------------------
  // Live checkout

  /** Without a record for today, live checkout answers "not found" and changes nothing. */
  lemma CheckOutWithoutRecord(db: Db, userId: UserId, zone: Option<TimeZone>, now: Instant,
                              checkOutAt: Option<Instant>)
    requires UniqueDays(db)
    requires forall i :: i in db ==> !OnDay(db[i], userId, GetTodayDate(now, zone))
    ensures CheckOut(db, userId, zone, now, checkOutAt) == Step(db, Failure(NotFound(NoCheckInToday)))
  {
  }

  /**
   * On today's record the guards apply in order: already checked out, then
   * not after check-in, then a different day; each refusal keeps the store.
   */
  lemma CheckOutGuardOrder(db: Db, userId: UserId, zone: Option<TimeZone>, now: Instant,
                           checkOutAt: Option<Instant>, id: RecordId)
    requires UniqueDays(db)
    requires id in db && OnDay(db[id], userId, GetTodayDate(now, zone))
    ensures var s := CheckOut(db, userId, zone, now, checkOutAt);
            var r, t := db[id], checkOutAt.GetOr(now);
            && (r.isCheckedOut ==> s == Step(db, Failure(AlreadyCheckedOut(r))))
            && (!r.isCheckedOut && t <= r.checkInAt ==> s == Step(db, Failure(InvalidTransition(NotAfterCheckIn))))
            && (!r.isCheckedOut && t > r.checkInAt && FormatDateToLocal(t, zone) != r.date
                ==> s == Step(db, Failure(InvalidTransition(DifferentDate))))
            && (s.result.Success? <==> !r.isCheckedOut && t > r.checkInAt && FormatDateToLocal(t, zone) == r.date)
  {
  }

  /** Every refused live checkout leaves the store unchanged. */
  lemma CheckOutRefusalKeepsStore(db: Db, userId: UserId, zone: Option<TimeZone>, now: Instant,
                                  checkOutAt: Option<Instant>)
    requires UniqueDays(db)
    requires CheckOut(db, userId, zone, now, checkOutAt).result.Failure?
    ensures CheckOut(db, userId, zone, now, checkOutAt).db == db
  {
  }

  /**
   * A successful live checkout sets the checkout time and the flag on
   * today's record and nothing else; the stored checkout is after the
   * check-in and on the record's day, which is today.
   */
  lemma CheckOutSuccess(db: Db, userId: UserId, zone: Option<TimeZone>, now: Instant, checkOutAt: Option<Instant>)
    requires UniqueDays(db)
    requires CheckOut(db, userId, zone, now, checkOutAt).result.Success?
    ensures var s := CheckOut(db, userId, zone, now, checkOutAt);
            var id, t := s.result.value.id, checkOutAt.GetOr(now);
            && id in db && OnDay(db[id], userId, GetTodayDate(now, zone)) && !db[id].isCheckedOut
            && s.db == db[id := db[id].(checkOutAt := Some(t), isCheckedOut := true)]
            && s.result.value.record == s.db[id]
            && t > db[id].checkInAt
            && FormatDateToLocal(t, zone) == db[id].date == GetTodayDate(now, zone)
  {
  }

  /** Live checkout keeps every store invariant. */
  lemma CheckOutKeepsWellFormed(db: Db, userId: UserId, zone: Option<TimeZone>, now: Instant,
                                checkOutAt: Option<Instant>)
    requires WellFormed(db)
    ensures WellFormed(CheckOut(db, userId, zone, now, checkOutAt).db)
  {
    var s := CheckOut(db, userId, zone, now, checkOutAt);
    if s.result.Success? {
      CheckOutSuccess(db, userId, zone, now, checkOutAt);
    }
  }

  /** After a live checkout, another live checkout the same day is refused as already checked out. */
  lemma NoSecondLiveCheckOut(db: Db, userId: UserId, zone: Option<TimeZone>, now: Instant, now': Instant,
                             checkOutAt: Option<Instant>, checkOutAt': Option<Instant>)
    requires UniqueDays(db)
    requires CheckOut(db, userId, zone, now, checkOutAt).result.Success?
    requires GetTodayDate(now', zone) == GetTodayDate(now, zone)
    ensures var s := CheckOut(db, userId, zone, now, checkOutAt);
            UniqueDays(s.db) &&
            CheckOut(s.db, userId, zone, now', checkOutAt') == Step(s.db, Failure(AlreadyCheckedOut(s.result.value.record)))
  {
    CheckOutSuccess(db, userId, zone, now, checkOutAt);
  }

  /**
   * When the record's day is its check-in's day in the same zone, a
   * successful live checkout lies on the same local calendar day as the
   * check-in and as the clock.
   */
  lemma LiveCheckOutSameLocalDay(db: Db, userId: UserId, zone: TimeZone, now: Instant, checkOutAt: Option<Instant>)
    requires UniqueDays(db)
    requires CheckOut(db, userId, Some(zone), now, checkOutAt).result.Success?
    requires forall i :: i in db ==> db[i].date == FormatDateToLocal(db[i].checkInAt, Some(zone))
    requires forall i :: i in db ==> InKeyRange(db[i].checkInAt, zone)
    ensures var s := CheckOut(db, userId, Some(zone), now, checkOutAt);
            var r := db[s.result.value.id];
            LocalDayNumber(r.checkInAt, zone) == LocalDayNumber(checkOutAt.GetOr(now), zone)
                                              == LocalDayNumber(now, zone)
  {
    var s := CheckOut(db, userId, Some(zone), now, checkOutAt);
    CheckOutSuccess(db, userId, Some(zone), now, checkOutAt);
    var r, t := db[s.result.value.id], checkOutAt.GetOr(now);
    assert r.checkInAt < t;
    LocalDayNumberMonotone(r.checkInAt, t, zone);
    SameKeySameDay(r.checkInAt, t, zone);
    SameKeySameDay(r.checkInAt, now, zone);
  }

  /** In one zone, an instant with the same day key as an in-range instant is on the same local day. */
  lemma SameKeySameDay(t: Instant, u: Instant, zone: TimeZone)
    requires InKeyRange(t, zone)
    requires FormatDateToLocal(t, Some(zone)) == FormatDateToLocal(u, Some(zone))
    ensures LocalDayNumber(t, zone) == LocalDayNumber(u, zone)
  {
    var kt := FormatDateToLocal(t, Some(zone));
    if !InKeyRange(u, zone) {
      // A key outside the four-digit years starts with a sign, never with a digit.
      DayKeyShape(t, Some(zone));
      assert false;
    }
    DayKeyOrder(t, u, zone);
  }

  // ---------------------------------------------------------------------------
  // Manual checkout

  /** An unknown record, or another user's, is "not found" and nothing changes. */
  lemma ManualCheckOutNotFound(db: Db, userId: UserId, zone: Option<TimeZone>, id: RecordId, at: Instant)
    requires id !in db || db[id].userId != userId
    ensures ManualCheckOut(db, userId, zone, id, at) == Step(db, Failure(NotFound(NoSuchRecord)))
  {
  }

  /**
   * A manual checkout of an owned record tests its guards in order: a time
   * not after the check-in is refused first, then one on another local day,
   * each with the store unchanged. It succeeds exactly when both pass; it
   * then sets the override and the flag of that one record and leaves the
   * live checkout as it was.
   */
  lemma ManualCheckOutEffect(db: Db, userId: UserId, zone: Option<TimeZone>, id: RecordId, at: Instant)
    requires id in db && db[id].userId == userId
    ensures var s := ManualCheckOut(db, userId, zone, id, at);
            && (s.result.Success? <==> at > db[id].checkInAt && FormatDateToLocal(at, zone) == db[id].date)
            && (at <= db[id].checkInAt ==> s == Step(db, Failure(InvalidTransition(NotAfterCheckIn))))
            && (at > db[id].checkInAt && FormatDateToLocal(at, zone) != db[id].date ==>
                  s == Step(db, Failure(InvalidTransition(DifferentDate))))
            && (s.result.Failure? ==> s.db == db)
            && (s.result.Success? ==>
                  && s.db == db[id := db[id].(manualCheckOutAt := Some(at), isCheckedOut := true)]
                  && s.result.value == Saved(id, s.db[id]))
  {
  }

  /** Manual checkout keeps every store invariant. */
  lemma ManualCheckOutKeepsWellFormed(db: Db, userId: UserId, zone: Option<TimeZone>, id: RecordId, at: Instant)
    requires WellFormed(db)
    ensures WellFormed(ManualCheckOut(db, userId, zone, id, at).db)
  {
  }

  /**
   * Two successful manual checkouts of one record: the second time wins,
   * the live checkout is untouched, and the record reads as overridden.
   */
  lemma ManualCheckOutOverwrites(db: Db, userId: UserId, zone: Option<TimeZone>, id: RecordId,
                                 first: Instant, second: Instant, now: Instant)
    requires ManualCheckOut(db, userId, zone, id, first).result.Success?
    requires ManualCheckOut(ManualCheckOut(db, userId, zone, id, first).db, userId, zone, id, second).result.Success?
    ensures var s := ManualCheckOut(ManualCheckOut(db, userId, zone, id, first).db, userId, zone, id, second);
            && s.db.Keys == db.Keys
            && s.db[id] == db[id].(manualCheckOutAt := Some(second), isCheckedOut := true)
            && s.db[id].checkOutAt == db[id].checkOutAt
            && ActualCheckOutAt(s.db[id]) == second
            && StatusOf(s.db[id], now) == ManualOverride
  {
  }

  /** A manual checkout is accepted on a record that is already checked out, live or manually. */
  lemma ManualCheckOutIgnoresCheckedOutFlag(db: Db, userId: UserId, zone: Option<TimeZone>, id: RecordId,
                                            at: Instant, flag: bool)
    requires id in db
    ensures ManualCheckOut(db[id := db[id].(isCheckedOut := flag)], userId, zone, id, at).result.Success?
            == ManualCheckOut(db, userId, zone, id, at).result.Success?
  {
  }

  // ---------------------------------------------------------------------------
  // Delete

  /** Deleting removes exactly the caller's record, or answers "not found" and changes nothing. */
  lemma DeleteEffect(db: Db, userId: UserId, id: RecordId)
    ensures var s := DeleteAttendance(db, userId, id);
            && (s.result.Success? <==> id in db && db[id].userId == userId)
            && (s.result.Success? ==> s.db == db - {id} && s.result.value == Saved(id, db[id]))
            && (s.result.Failure? ==> s.db == db && s.result.error == NotFound(NoSuchRecord))
  {
  }

  /** Deleting keeps every store invariant. */
  lemma DeleteKeepsWellFormed(db: Db, userId: UserId, id: RecordId)
    requires WellFormed(db)
    ensures WellFormed(DeleteAttendance(db, userId, id).db)
  {
  }

  /** Once a day's record is deleted, checking in for that day is no longer a conflict. */
  lemma DeleteFreesTheDay(db: Db, userId: UserId, id: RecordId, freshId: RecordId, zone: Option<TimeZone>,
                          durationMinutes: int, now: Instant, checkInAt: Option<Instant>, note: Option<string>)
    requires UniqueDays(db) && freshId !in db
    requires id in db && db[id].userId == userId && db[id].date == CheckInDay(zone, now, checkInAt)
    ensures var s := DeleteAttendance(db, userId, id);
            && UniqueDays(s.db) && freshId !in s.db
            && (CheckIn(s.db, freshId, userId, zone, durationMinutes, now, checkInAt, note).result.Success?
                <==> note.None? || Utf16Length(note.value) <= MaxNoteLength)
  {
  }

  // ---------------------------------------------------------------------------
  // Reads

  /** Today's record is the one a live checkout acts on. */
  lemma TodayIsWhatCheckOutSees(db: Db, userId: UserId, zone: Option<TimeZone>, now: Instant,
                                checkOutAt: Option<Instant>)
    requires UniqueDays(db)
    ensures GetTodayAttendance(db, userId, zone, now).None?
            <==> CheckOut(db, userId, zone, now, checkOutAt).result == Failure(NotFound(NoCheckInToday))
  {
  }
}
