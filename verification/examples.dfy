/**
 * Worked scenarios in Asia/Kolkata (UTC+05:30, the default zone): a
 * check-in at 09:00 on 10 January 2024 with an eight-hour work day, and a
 * live checkout attempted after local midnight.
 */
module AttendanceExamples {
  import opened Wrappers
  import opened DateUtils
  import opened AttendanceModel
  import opened AttendanceRules

  const MsPerHour: int := 60 * MsPerMinute

  /** 2024-01-10T09:00:00+05:30. */
  const NineOnTenth: Instant := 1704857400000

  /** The default zone's day key of an instant on the local day of a date between 1970 and 2100. */
  lemma KolkataKey(t: Instant, d: CivilDate)
    requires ValidDate(d) && 1970 <= d.year <= 2100
    requires LocalDayNumber(t, DefaultZone) == DaysFromCivil(d)
    ensures FormatDateToLocal(t, None) == FormatDate(d)
  {
    CivilFromDaysInverse(d);
  }

  /** 10 and 11 January 2024 are days 19732 and 19733 after 1970-01-01, keyed "2024-01-10" and "2024-01-11". */
  lemma January2024()
    ensures DaysFromCivil(CivilDate(2024, 1, 10)) == 19732
    ensures FormatDate(CivilDate(2024, 1, 10)) == "2024-01-10"
    ensures FormatDate(CivilDate(2024, 1, 11)) == "2024-01-11"
  {
    DaysBeforeYearNear1970(2024);
    assert Digits(2024, 4) == Digits(202, 3) + ['4'];
    assert Digits(202, 3) == Digits(20, 2) + ['2'];
    assert Digits(20, 2) == Digits(2, 1) + ['0'];
    assert Digits(2, 1) == Digits(0, 0) + ['2'];
    assert Digits(1, 2) == Digits(0, 1) + ['1'];
    assert Digits(10, 2) == Digits(1, 1) + ['0'];
    assert Digits(11, 2) == Digits(1, 1) + ['1'];
  }

  /** Every instant from 00:00 to 23:59:59.999 on 10 January 2024, Kolkata time, is keyed "2024-01-10". */
  lemma TenthOfJanuary(t: Instant)
    requires NineOnTenth - 9 * MsPerHour <= t < NineOnTenth + 15 * MsPerHour
    ensures FormatDateToLocal(t, None) == "2024-01-10"
  {
    January2024();
    KolkataKey(t, CivilDate(2024, 1, 10));
  }

  /** Every instant of 11 January 2024, Kolkata time, is keyed "2024-01-11". */
  lemma EleventhOfJanuary(t: Instant)
    requires NineOnTenth + 15 * MsPerHour <= t < NineOnTenth + 39 * MsPerHour
    ensures FormatDateToLocal(t, None) == "2024-01-11"
  {
    January2024();
    KolkataKey(t, CivilDate(2024, 1, 11));
  }

  /**
   * Check-in on the morning of 10 January (at 09:00, say) for 480 minutes
   * of work: the record is for "2024-01-10", due out eight hours later,
   * lasts 480 minutes, and is active seven hours after check-in and
   * completed nine hours after it when no checkout is recorded.
   */
  lemma EightHourDay(userId: UserId, checkIn: Instant)
    requires NineOnTenth - 9 * MsPerHour <= checkIn <= NineOnTenth
    ensures var s := CheckIn(map[], 0, userId, None, 480, checkIn, None, None);
            && s.result.Success?
            && s.result.value.record.date == "2024-01-10"
            && s.result.value.record.computedCheckOutAt == checkIn + 8 * MsPerHour
            && DurationMinutes(s.result.value.record) == 480
            && StatusName(StatusOf(s.result.value.record, checkIn + 7 * MsPerHour)) == "active"
            && StatusName(StatusOf(s.result.value.record, checkIn + 9 * MsPerHour)) == "completed"
  {
    TenthOfJanuary(checkIn);
    RoundedMinutesExact(480);
  }

  /**
   * After such a check-in, a live checkout just after midnight (00:30 on
   * 11 January, say) is refused: with the clock still on the 10th (23:00,
   * say) it falls on another day than the check-in; with the clock itself
   * past midnight the 11th has no check-in at all.
   */
  lemma CheckOutAfterMidnight(userId: UserId, checkIn: Instant, lateEvening: Instant, halfPastMidnight: Instant)
    requires NineOnTenth - 9 * MsPerHour <= checkIn <= NineOnTenth
    requires NineOnTenth <= lateEvening < NineOnTenth + 15 * MsPerHour
    requires NineOnTenth + 15 * MsPerHour <= halfPastMidnight <= NineOnTenth + 16 * MsPerHour
    ensures var s := CheckIn(map[], 0, userId, None, 480, checkIn, None, None);
            && CheckOut(s.db, userId, None, lateEvening, Some(halfPastMidnight)).result
               == Failure(InvalidTransition(DifferentDate))
            && CheckOut(s.db, userId, None, halfPastMidnight, None).result == Failure(NotFound(NoCheckInToday))
  {
    TenthOfJanuary(checkIn);
    TenthOfJanuary(lateEvening);
    EleventhOfJanuary(halfPastMidnight);
    var s := CheckIn(map[], 0, userId, None, 480, checkIn, None, None);
    assert s.db == map[0 := s.result.value.record];
    assert FindByDay(s.db, userId, "2024-01-10") == Some(0);
    assert FormatDateToLocal(halfPastMidnight, None) != s.result.value.record.date;
  }
}
