/**
 * The attendance record: one per user per calendar day, its schema
 * constraints, and the values derived from it on every read (the actual
 * checkout, the worked minutes, and the status).
 */
module AttendanceModel {
  import opened Wrappers
  import opened DateUtils

  /** Opaque user identity. */
  type UserId = nat

  /** Longest note the schema accepts. */
  const MaxNoteLength: nat := 500

  datatype Record = Record(
    userId: UserId,
    date: string,                      // day key of the check-in in the user's zone
    checkInAt: Instant,
    checkOutAt: Option<Instant>,       // live checkout; absent until one happens
    computedCheckOutAt: Instant,       // check-in plus the user's standard working time
    manualCheckOutAt: Option<Instant>, // retroactive override
    note: Option<string>,
    isCheckedOut: bool)

  /**
   * Length of `s` as JavaScript counts it: in UTF-16 code units, so a
   * character beyond U+FFFF counts twice.
   */
  function Utf16Length(s: string): (n: nat)
    ensures |s| <= n <= 2 * |s|
    ensures n == |s| <==> forall i :: 0 <= i < |s| ==> s[i] as int < 0x10000
    ensures n == 2 * |s| <==> forall i :: 0 <= i < |s| ==> s[i] as int >= 0x10000
  {
    if s == [] then 0
    else
      var rest := Utf16Length(s[1..]);
      assert forall i :: 1 <= i < |s| ==> s[i] == s[1..][i - 1];
      (if s[0] as int >= 0x10000 then 2 else 1) + rest
  }

  /** What the schema validators accept: a non-empty date and a note of at most 500 UTF-16 code units. */
  predicate SchemaValid(r: Record)
  {
    r.date != "" && (r.note.Some? ==> Utf16Length(r.note.value) <= MaxNoteLength)
  }

  /** A record as first stored: no checkout of either kind, not checked out. */
  function NewRecord(userId: UserId, date: string, checkInAt: Instant, computedCheckOutAt: Instant,
                     note: Option<string>): (r: Record)
    ensures r.checkOutAt.None? && r.manualCheckOutAt.None? && !r.isCheckedOut
  {
    Record(userId, date, checkInAt, None, computedCheckOutAt, None, note, false)
  }

  /**
   * The lifecycle invariant the transitions keep: the flag is set exactly
   * when a checkout of either kind is recorded, and each recorded checkout
   * is later than the check-in.
   */
  predicate Consistent(r: Record)
  {
    && (r.isCheckedOut <==> r.checkOutAt.Some? || r.manualCheckOutAt.Some?)
    && (r.checkOutAt.Some? ==> r.checkInAt < r.checkOutAt.value)
    && (r.manualCheckOutAt.Some? ==> r.checkInAt < r.manualCheckOutAt.value)
  }

  // ---------------------------------------------------------------------------
  // Derived values

  /** The checkout that counts: the manual override, else the live checkout, else the computed one. */
  function ActualCheckOutAt(r: Record): (t: Instant)
    ensures r.manualCheckOutAt.Some? ==> t == r.manualCheckOutAt.value
    ensures r.manualCheckOutAt.None? && r.checkOutAt.Some? ==> t == r.checkOutAt.value
    ensures r.manualCheckOutAt.None? && r.checkOutAt.None? ==> t == r.computedCheckOutAt
  {
    match r.manualCheckOutAt
    case Some(m) => m
    case None =>
      match r.checkOutAt
      case Some(c) => c
      case None => r.computedCheckOutAt
  }

  /**
   * A span of milliseconds rounded to the nearest minute, halves rounded up
   * (JavaScript's Math.round of the quotient by 60000).
   */
  function RoundedMinutes(ms: int): (m: int)
    ensures m * MsPerMinute - MsPerMinute / 2 <= ms < m * MsPerMinute + MsPerMinute / 2
  {
    (ms + MsPerMinute / 2) / MsPerMinute
  }

  /** Rounding to minutes is exact on whole minutes. */
  lemma RoundedMinutesExact(minutes: int)
    ensures RoundedMinutes(minutes * MsPerMinute) == minutes
  {
  }

  /** Worked minutes: from check-in to the actual checkout, rounded to the nearest minute. */
  function DurationMinutes(r: Record): (m: int)
    ensures m * MsPerMinute - MsPerMinute / 2 <= ActualCheckOutAt(r) - r.checkInAt < m * MsPerMinute + MsPerMinute / 2
  {
    RoundedMinutes(ActualCheckOutAt(r) - r.checkInAt)
  }

  datatype Status = Active | Completed | ManualOverride

  /**
   * Status at clock reading `now`: an override wins; a live checkout
   * completes the day; otherwise the day completes once the computed
   * checkout is reached.
   */
  function StatusOf(r: Record, now: Instant): (s: Status)
    ensures s == ManualOverride <==> r.manualCheckOutAt.Some?
    ensures s == Active <==> r.manualCheckOutAt.None? && !(r.isCheckedOut && r.checkOutAt.Some?)
                             && now < r.computedCheckOutAt
  {
    if r.manualCheckOutAt.Some? then ManualOverride
    else if r.isCheckedOut && r.checkOutAt.Some? then Completed
    else if now >= r.computedCheckOutAt then Completed
    else Active
  }

  /** The status as it appears in records and as the history filter spells it. */
  function StatusName(s: Status): string
  {
    match s
    case Active => "active"
    case Completed => "completed"
    case ManualOverride => "manual_override"
  }

  /** The status as the export spells it. */
  function ExportLabel(s: Status): string
  {
    match s
    case Active => "Active"
    case Completed => "Completed"
    case ManualOverride => "Manual Override"
  }

  /** Distinct statuses have distinct names and distinct export labels. */
  lemma StatusSpellingsDistinct(s: Status, t: Status)
    ensures StatusName(s) == StatusName(t) <==> s == t
    ensures ExportLabel(s) == ExportLabel(t) <==> s == t
  {
    assert StatusName(Active)[0] == 'a' && StatusName(Completed)[0] == 'c' && StatusName(ManualOverride)[0] == 'm';
    assert ExportLabel(Active)[0] == 'A' && ExportLabel(Completed)[0] == 'C' && ExportLabel(ManualOverride)[0] == 'M';
  }

  // ---------------------------------------------------------------------------
  // Properties of the derived values

  /** Once completed, a record stays completed as the clock advances; an override never changes. */
  lemma StatusSettles(r: Record, t: Instant, u: Instant)
    requires t <= u
    ensures StatusOf(r, t) == Completed ==> StatusOf(r, u) == Completed
    ensures StatusOf(r, u) == Active ==> StatusOf(r, t) == Active
    ensures StatusOf(r, t) == ManualOverride <==> StatusOf(r, u) == ManualOverride
  {
  }

  /** On a consistent record without an override, completed means checked out or past the computed checkout. */
  lemma CompletedMeansCheckedOutOrElapsed(r: Record, now: Instant)
    requires Consistent(r) && r.manualCheckOutAt.None?
    ensures StatusOf(r, now) == Completed <==> r.isCheckedOut || now >= r.computedCheckOutAt
  {
  }

  /** A fresh record reports the working time it was created with as its duration. */
  lemma FreshRecordDuration(userId: UserId, date: string, checkInAt: Instant, durationMinutes: int,
                            note: Option<string>)
    ensures DurationMinutes(NewRecord(userId, date, checkInAt, ComputeCheckout(checkInAt, durationMinutes), note))
            == durationMinutes
  {
    RoundedMinutesExact(durationMinutes);
  }

  /** A fresh record is active until its computed checkout, completed from then on. */
  lemma FreshRecordStatus(userId: UserId, date: string, checkInAt: Instant, computedCheckOutAt: Instant,
                          note: Option<string>, now: Instant)
    ensures StatusOf(NewRecord(userId, date, checkInAt, computedCheckOutAt, note), now)
            == if now < computedCheckOutAt then Active else Completed
    ensures Consistent(NewRecord(userId, date, checkInAt, computedCheckOutAt, note))
  {
  }

  /** A checked-out consistent record has a checkout after check-in, so a duration that is not negative. */
  lemma CheckedOutDurationNotNegative(r: Record)
    requires Consistent(r) && r.isCheckedOut
    ensures ActualCheckOutAt(r) > r.checkInAt
    ensures DurationMinutes(r) >= 0
  {
  }
}
