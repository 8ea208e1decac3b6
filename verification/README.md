# Attendance state engine — a Dafny model

This project models the attendance core of the check-in backend. Each user
has at most one attendance record per calendar day, and the day is reckoned
in the user's own time zone. A record is created by a check-in, which fixes
the check-in instant and a computed checkout (check-in plus the user's
default work duration). A record can then be closed in two ways:

- by a live checkout, which applies to today's record only;
- by a manual checkout, which applies to any of the user's records and
  overrides the others.

Reads derive three values from the stored fields and the clock:

- the actual checkout;
- the worked minutes;
- a status: `active`, `completed` or `manual_override`.

The history listing filters by date range and status, sorts by day, pages
and enriches the records. The export lists a date range in ascending day
order, with capitalised status labels.

The modules follow the source files:

- `DateUtils` (`date_utils.dfy`) covers `src/utils/dateUtils.js`:
  - the computed checkout, as exact integer arithmetic on millisecond instants;
  - the day key `YYYY-MM-DD` of an instant in a fixed-offset zone, built on a
    proleptic Gregorian calendar;
  - `Asia/Kolkata` (UTC+05:30) as the default zone.

  The round trip between calendar dates and day numbers is proved, and so
  is the fact that day keys sort as the days they name.
- `StringOrder` (`string_order.dfy`) is the code-point order the store uses
  to compare the date strings in range filters and sorts.
- `AttendanceModel` (`attendance_model.dfy`) covers `src/models/Attendance.js`:
  - the record, its schema limits and its defaults;
  - the lifecycle invariant the transitions keep;
  - the virtuals `actualCheckOutAt`, `durationMinutes` and `status`.
- `AttendanceRules` (`attendance_rules.dfy`) is the store, a map from record
  identity to record, and covers `src/controllers/attendanceController.js`:
  - the unique (userId, date) index, as an invariant of that map;
  - each handler as a function from the store to the new store and a result.
    The result is the saved record or a tagged rejection:
    `Conflict`, `AlreadyCheckedOut`, `NotFound`, `InvalidTransition` or
    `ValidationFailed`.
- `TransitionProperties` (`transition_properties.dfy`) proves what the
  transitions promise:
  - the guard order;
  - refusals leave the store as it was;
  - successes change one record, and only the fields they name;
  - the invariants are kept;
  - a second check-in for a day conflicts;
  - a manual checkout overwrites an earlier one.
- `AttendanceController` (`attendance_controller.dfy`) is the collection as
  an object. `AttendanceStore` holds the records and the next identity. Its
  methods do what the handlers do, step by step: look the record up, test
  the guards in order, write the changed record. Each method is proved to
  produce the store and the answer of the matching `AttendanceRules`
  function, and to keep the invariant.
- `History` (`history.dfy`) and `HistoryProperties` (`history_properties.dfy`)
  cover the history and export handlers:
  - the query the handler builds, including its status clauses;
  - inclusive string bounds on the day key;
  - order by day;
  - `skip`/`limit` pages and the page count;
  - the inline enrichment.

  The proofs show that the inline enrichment agrees with the model's
  virtuals, and that pages split the listing without gaps or overlaps. They
  also show how the status filter relates to the derived status: exact for
  `manual_override`, over-inclusive for `active`, under-inclusive for
  `completed`.
- `AttendanceExamples` (`examples.dfy`) works through two scenarios in
  Kolkata time:
  - a 09:00 check-in on 10 January 2024 with 480 minutes of work;
  - a checkout attempted just after local midnight.

The clock, the user's zone and default duration, and the request's fields
are parameters everywhere. A JavaScript value that the source tests for
truthiness is an `Option` in the model. For a string, "given" means present
and non-empty.

Where the intended behaviour and the code differ, the model follows the
code:

- The history status filter works on stored fields, not on the derived
  status. `active` matches every record not checked out, including those
  whose computed checkout has passed and whose status is therefore
  `completed`. `completed` requires the flag and no override, so it misses
  records that are completed only because their computed checkout has
  passed. `ActiveFilterAdmitsElapsed` and `CompletedFilterMissesElapsed`
  state this.
- A manual checkout has no already-checked-out guard, so a second one
  overwrites the first (`ManualCheckOutOverwrites`). It also succeeds on a
  record that was checked out live.
- Records can be deleted by their owner (`DeleteAttendance`).
- The default work duration is not checked to be non-negative: any integer
  is accepted.

## Model

| member | source | states |
|---|---|---|
| DateUtils.ComputeCheckout | src/utils/dateUtils.js:6-8 | the computed checkout is at or after the check-in for a duration ≥ 0, strictly after for a duration > 0, and a whole number of minutes from it |
| DateUtils.ComputeCheckoutAdditive | src/utils/dateUtils.js:6-8 | extending a computed checkout by b minutes equals computing it with a + b minutes |
| DateUtils.ComputeCheckoutInjective | src/utils/dateUtils.js:6-8 | the computed checkout determines the duration it was computed with |
| DateUtils.CivilFromDays | src/utils/dateUtils.js:1-4 | the calendar date of a day number is a valid date whose day number is that number |
| DateUtils.CivilFromDaysInverse | src/utils/dateUtils.js:1-4 | every valid date is recovered from its day number (round trip) |
| DateUtils.DaysFromCivilOrder | src/utils/dateUtils.js:1-4 | chronological order and equality of valid dates are those of their day numbers |
| DateUtils.CivilFromDaysOrder | src/utils/dateUtils.js:1-4 | later day numbers fall on later dates, and distinct day numbers on distinct dates |
| DateUtils.DaysBeforeYearNear1970 | src/utils/dateUtils.js:1-4 | from 1970 to 2100 a year starts 365 days per year plus one per leap year after 1 January 1970 |
| DateUtils.LocalDate | src/utils/dateUtils.js:1-4 | the local date of an instant in a zone is a valid calendar date |
| DateUtils.FormatDateShape | src/utils/dateUtils.js:3 | a date in years 0000..9999 formats as ten characters: digits, with '-' at positions 4 and 7 |
| DateUtils.FormatDateOrder | src/utils/dateUtils.js:3 | formatted dates compare as strings exactly as the dates compare chronologically, and are equal only for the same date |
| DateUtils.DigitsOrder | src/utils/dateUtils.js:3 | zero-padded digit strings of numbers that fit their width compare as the numbers do |
| DateUtils.DefaultZoneIsKolkata | src/utils/dateUtils.js:1 | with no zone given, the day key is the Asia/Kolkata (UTC+05:30) day key |
| DateUtils.DayKeyShape | src/utils/dateUtils.js:1-4 | the day key of an instant whose local year is 0000..9999 has the YYYY-MM-DD shape |
| DateUtils.LocalDayNumberMonotone | src/utils/dateUtils.js:1-4 | a later instant never falls on an earlier local day |
| DateUtils.DayKeyOrder | src/utils/dateUtils.js:1-4 | in one zone, day keys compare as strings as the local days compare, and equal keys mean the same local day |
| StringOrder.LessEqReflexive | src/controllers/attendanceController.js:218-219 | every day key is within a range bounded by itself |
| StringOrder.LessEqAntisymmetric | src/controllers/attendanceController.js:239 | two strings each ordered before the other are equal |
| StringOrder.LessEqTransitive | src/controllers/attendanceController.js:239 | the string order the sort uses is transitive |
| StringOrder.LessEqTotal | src/controllers/attendanceController.js:239 | any two strings are ordered one way or the other |
| StringOrder.LessEqAppend | src/controllers/attendanceController.js:218-219 | for equal-length prefixes, the order of concatenations is decided by the prefixes, then by the rests |
| AttendanceModel.Utf16Length | src/models/Attendance.js:30-33 | a note's length as the schema counts it lies between its character count and twice that; it equals the character count exactly when no character is beyond U+FFFF, and twice it exactly when all are |
| AttendanceModel.NewRecord | src/models/Attendance.js:18-37 | a new record has no live checkout, no manual checkout and is not checked out |
| AttendanceModel.ActualCheckOutAt | src/models/Attendance.js:46-48 | the actual checkout is the manual checkout if set, else the live checkout if set, else the computed one |
| AttendanceModel.RoundedMinutes | src/models/Attendance.js:52 | the result is the whole number of minutes within half a minute of the span, halves rounded up |
| AttendanceModel.RoundedMinutesExact | src/models/Attendance.js:52 | a whole number of minutes rounds to itself |
| AttendanceModel.DurationMinutes | src/models/Attendance.js:50-53 | the duration is the actual checkout minus the check-in, rounded to the nearest minute |
| AttendanceModel.StatusOf | src/models/Attendance.js:55-67 | the status is manual_override exactly when a manual checkout is set, and active exactly when there is no override, no live checkout with the flag set, and the clock is before the computed checkout |
| AttendanceModel.StatusSpellingsDistinct | src/models/Attendance.js:57-66 | the three statuses have distinct names, and distinct export labels |
| AttendanceModel.StatusSettles | src/models/Attendance.js:55-67 | as the clock advances, completed stays completed, active was active before, and an override never appears or disappears |
| AttendanceModel.CompletedMeansCheckedOutOrElapsed | src/models/Attendance.js:59-66 | on a consistent record without override, completed holds exactly when it is checked out or the computed checkout has been reached |
| AttendanceModel.FreshRecordDuration | src/models/Attendance.js:50-53 | a new record's duration is the work duration it was created with |
| AttendanceModel.FreshRecordStatus | src/models/Attendance.js:55-67 | a new record is consistent, active before its computed checkout and completed from it on |
| AttendanceModel.CheckedOutDurationNotNegative | src/models/Attendance.js:46-53 | a checked-out consistent record's actual checkout is after its check-in, so its duration is not negative |
| AttendanceRules.FindByDay | src/models/Attendance.js:43 | under the unique index, the lookup by (user, day) answers the record of that user and day, or none when there is none |
| AttendanceRules.GetTodayAttendance | src/controllers/attendanceController.js:186-204 | today's record is answered exactly when the user has a record keyed with today's date in their zone |
| AttendanceRules.GetAttendanceById | src/controllers/attendanceController.js:288-313 | a record is answered exactly when it exists and belongs to the caller; otherwise not found |
| TransitionProperties.CheckInConflict | src/controllers/attendanceController.js:15-31 | a check-in for a day that already has a record answers a conflict carrying that record, and the store is unchanged |
| TransitionProperties.CheckInCreates | src/controllers/attendanceController.js:33-44 | a check-in for a free day with a note of at most 500 UTF-16 code units adds exactly one record, with the check-in instant, its day key, check-in plus duration as computed checkout, the note, and no checkout |
| TransitionProperties.CheckInRejectsLongNote | src/models/Attendance.js:30-33 | a note longer than 500 UTF-16 code units is refused and nothing is stored |
| TransitionProperties.CheckInCountsUtf16Units | src/models/Attendance.js:30-33 | a note of more than 250 characters beyond U+FFFF is already over the limit and is refused, nothing stored |
| TransitionProperties.CheckInKeepsWellFormed | src/models/Attendance.js:43 | check-in keeps the unique index, the schema and the lifecycle invariant |
| TransitionProperties.CheckInOnlyRecordOfDay | src/controllers/attendanceController.js:18-44 | after a successful check-in the new record is the only one for its user and day |
| TransitionProperties.SecondCheckInConflicts | src/controllers/attendanceController.js:15-31 | a second check-in for the same day answers the first record as a conflict and stores nothing |
| TransitionProperties.CheckOutWithoutRecord | src/controllers/attendanceController.js:68-82 | with no record for today, live checkout answers not found and changes nothing |
| TransitionProperties.CheckOutGuardOrder | src/controllers/attendanceController.js:84-109 | on today's record the refusals come in order: already checked out, not after check-in, different day; each leaves the store unchanged |
| TransitionProperties.CheckOutRefusalKeepsStore | src/controllers/attendanceController.js:69-109 | every refused live checkout leaves the store unchanged |
| TransitionProperties.CheckOutSuccess | src/controllers/attendanceController.js:111-114 | a successful live checkout changes only the checkout time and the flag of today's record; the time is after check-in and on the record's day |
| TransitionProperties.CheckOutKeepsWellFormed | src/controllers/attendanceController.js:61-126 | live checkout keeps the unique index, the schema and the lifecycle invariant |
| TransitionProperties.NoSecondLiveCheckOut | src/controllers/attendanceController.js:84-92 | after a live checkout, another live checkout the same day is refused as already checked out |
| TransitionProperties.LiveCheckOutSameLocalDay | src/controllers/attendanceController.js:66-109 | when records are keyed by their check-in day, a successful live checkout falls on the same local day as the check-in and as the clock |
| TransitionProperties.SameKeySameDay | src/controllers/attendanceController.js:103-104 | in one zone, an instant with the same day key as an in-range instant is on the same local day |
| TransitionProperties.ManualCheckOutNotFound | src/controllers/attendanceController.js:136-146 | an unknown record, or another user's, is not found and nothing changes |
| TransitionProperties.ManualCheckOutEffect | src/controllers/attendanceController.js:148-169 | a manual checkout of an owned record answers NotAfterCheckIn when the time is not after check-in, otherwise DifferentDate when it falls on another local day, each with the store unchanged; it succeeds exactly when both guards pass, and then sets only the override and the flag of that record |
| TransitionProperties.ManualCheckOutKeepsWellFormed | src/controllers/attendanceController.js:131-181 | manual checkout keeps the unique index, the schema and the lifecycle invariant |
| TransitionProperties.ManualCheckOutOverwrites | src/controllers/attendanceController.js:167-169 | after two successful manual checkouts the second time is stored, the live checkout is untouched, and the status is manual_override |
| TransitionProperties.ManualCheckOutIgnoresCheckedOutFlag | src/controllers/attendanceController.js:136-165 | whether or not a record is already checked out does not affect a manual checkout's outcome |
| TransitionProperties.DeleteEffect | src/controllers/attendanceController.js:318-341 | deleting removes exactly the caller's record, or answers not found and changes nothing |
| TransitionProperties.DeleteKeepsWellFormed | src/controllers/attendanceController.js:318-341 | deleting keeps the unique index, the schema and the lifecycle invariant |
| TransitionProperties.DeleteFreesTheDay | src/controllers/attendanceController.js:18-31 | once a day's record is deleted, the store keeps its index and a check-in for that day succeeds unless its note is over 500 UTF-16 code units |
| TransitionProperties.TodayIsWhatCheckOutSees | src/controllers/attendanceController.js:186-204 | today's read finds nothing exactly when a live checkout would answer that there is no check-in today |
| AttendanceController.AttendanceStore.CheckIn | src/controllers/attendanceController.js:7-56 | the new store and the answer are those of the check-in transition, the invariant is kept, a created record gets the next identity, and a refusal changes nothing |
| AttendanceController.AttendanceStore.CheckOut | src/controllers/attendanceController.js:61-126 | the new store and the answer are those of the live checkout transition, and the invariant is kept |
| AttendanceController.AttendanceStore.ManualCheckOut | src/controllers/attendanceController.js:131-181 | the new store and the answer are those of the manual checkout transition, and the invariant is kept |
| AttendanceController.AttendanceStore.DeleteAttendance | src/controllers/attendanceController.js:318-341 | the new store and the answer are those of the delete transition, and the invariant is kept |
| History.BoundOf | src/controllers/attendanceController.js:216-220 | a date bound applies exactly when it is given (present and non-empty), and it is then the given value |
| History.MatchingIds | src/controllers/attendanceController.js:237-243 | the selected records are exactly the stored ones matching the query |
| History.InOrderTotal | src/controllers/attendanceController.js:239 | any two day keys can be put in the requested order one way or the other |
| History.InOrderTransitive | src/controllers/attendanceController.js:239 | the requested order is transitive |
| History.InOrderAntisymmetric | src/controllers/attendanceController.js:239 | keys ordered both ways are equal |
| History.FirstExists | src/controllers/attendanceController.js:239 | a non-empty set of records has a first one in the requested order |
| History.FirstUnique | src/controllers/attendanceController.js:239 | among records on distinct days, the first one is unique |
| History.Ordered | src/controllers/attendanceController.js:238-239 | the sorted listing holds each selected record exactly once, in the requested day order |
| History.MatchingDistinctDays | src/models/Attendance.js:43 | under the unique index the records a query selects (all of one user) are on distinct days |
| History.PageCount | src/controllers/attendanceController.js:274 | the page count is the ceiling of total over limit: enough pages for all records, and no empty last page |
| History.PageSlice | src/controllers/attendanceController.js:235-241 | a page holds the records after the skipped ones, at most limit of them, in listing order |
| History.EachPositionOnOnePage | src/controllers/attendanceController.js:235-241 | position k of the listing lies on page k / limit + 1 only, that page exists, and k sits at offset k mod limit on it |
| History.HistoryListing | src/controllers/attendanceController.js:237-243 | the listing holds each record matching the history query exactly once, in the requested day order, and its length is the count |
| HistoryProperties.HistoryEnrichmentMatchesVirtuals | src/controllers/attendanceController.js:247-266 | the history's inline actual checkout, duration and status equal the model's virtuals |
| HistoryProperties.ExportRowMatchesVirtuals | src/controllers/attendanceController.js:363-386 | an export row carries the record's day, check-in, duration and its status under the export label, and the note or an empty string |
| HistoryProperties.HistoryPageContents | src/controllers/attendanceController.js:209-283 | a history page holds at most limit matching records of the user, each enriched with its virtuals, one per day in the requested order, and the counters describe all matching records |
| HistoryProperties.PageShowsPositionOnce | src/controllers/attendanceController.js:235-241 | in a listing without repeats, the element at position k shows on page k / limit + 1 only, at one offset |
| HistoryProperties.EachRecordOnExactlyOnePage | src/controllers/attendanceController.js:235-274 | every matching record is shown on exactly one page, which is within the page count, at exactly one position |
| HistoryProperties.DefaultHistoryRequest | src/controllers/attendanceController.js:211-277 | a request without page, limit or sort gets page 1 with limit 10 and the total count, holds min(10, total) records, newest day first and strictly descending, starting at the latest matching day |
| HistoryProperties.HistoryShowsListing | src/controllers/attendanceController.js:237-277 | a history page shows the records of its slice of the listing, and counts pages of the whole listing |
| HistoryProperties.ListedRecordsDiffer | src/models/Attendance.js:43 | distinct listed records are distinct records |
| HistoryProperties.DateBoundsInclusive | src/controllers/attendanceController.js:216-220 | a bound equal to a record's day admits it, in the history and in the export |
| HistoryProperties.MissingBoundsAdmitAll | src/controllers/attendanceController.js:216 | absent or empty bounds do not restrict the range |
| HistoryProperties.DateRangeSelectsDays | src/controllers/attendanceController.js:216-220 | with day keys as bounds, the range selects exactly the days from the first bound to the second, both included |
| HistoryProperties.ManualOverrideFilterExact | src/controllers/attendanceController.js:229-230 | the manual_override filter selects exactly the records whose status is manual_override |
| HistoryProperties.ActiveFilterAdmitsActive | src/controllers/attendanceController.js:224-225 | every consistent record whose status is active passes the active filter |
| HistoryProperties.ActiveFilterAdmitsElapsed | src/controllers/attendanceController.js:224-225 | the active filter also admits records that are not checked out and past their computed checkout, whose status is completed |
| HistoryProperties.CompletedFilterSound | src/controllers/attendanceController.js:226-228 | every consistent record the completed filter selects has status completed |
| HistoryProperties.CompletedFilterMissesElapsed | src/controllers/attendanceController.js:226-228 | the completed filter leaves out records whose status is completed only because the computed checkout has passed |
| HistoryProperties.OtherStatusValuesIgnored | src/controllers/attendanceController.js:223-232 | an absent, empty or unknown status value adds no clause, so the query is the plain date-range query |
| HistoryProperties.ExportContents | src/controllers/attendanceController.js:346-387 | the export has one row per record of the user in the range, whatever its status, in strictly ascending day order, each with that record's duration and export status label |
| AttendanceExamples.January2024 | src/utils/dateUtils.js:3 | 10 January 2024 is day 19732 after 1970-01-01, and 10 and 11 January 2024 format as "2024-01-10" and "2024-01-11" |
| AttendanceExamples.KolkataKey | src/utils/dateUtils.js:1-4 | an instant on the Kolkata local day of a date from 1970 to 2100 has that date's key |
| AttendanceExamples.TenthOfJanuary | src/utils/dateUtils.js:1-4 | every instant of 10 January 2024, Kolkata time, has the day key "2024-01-10" |
| AttendanceExamples.EleventhOfJanuary | src/utils/dateUtils.js:1-4 | every instant of 11 January 2024, Kolkata time, has the day key "2024-01-11" |
| AttendanceExamples.EightHourDay | src/controllers/attendanceController.js:7-56 | a morning check-in on 10 January with 480 minutes is keyed "2024-01-10", due out 8 hours later, lasts 480 minutes, is active after 7 hours and completed after 9 |
| AttendanceExamples.CheckOutAfterMidnight | src/controllers/attendanceController.js:66-109 | after that check-in, a checkout at 00:30 on the 11th is refused as another day while the clock is still on the 10th, and as no check-in today once the clock has passed midnight |

## Left out

- Time zones are fixed offsets from UTC, named for display only. The IANA
  database behind `toLocaleDateString`, with its daylight-saving and
  historical offset changes, is not part of this model.
- DateUtils.YearText: years 0..999 are zero-padded to four digits, and
  years outside 0000..9999 are written as a signed six-digit year. Both are
  assumptions about the locale formatter's output, which the source does
  not pin down. The shape and order lemmas rely on the padding for years
  below 1000.
- Instants are integer milliseconds. Parsing ISO-8601 request strings into
  instants, and invalid dates, are not modelled.
- DateUtils.Instant: it is unbounded. A JavaScript date is limited to
  ±8.64e15 ms. A computed checkout beyond that limit is an invalid date,
  which the required date field refuses. The model stores it.
- AttendanceRules.CheckOut: it reads the clock once. The source reads it
  twice: once for the default checkout instant and once for "today". Around
  local midnight the two readings can fall on different days. The source
  then answers that there is no record, where the model can succeed.
- History.GetHistory, History.ExportAttendance: they use one clock reading
  for the whole listing. The source reads the clock again for each record's
  status.
- AttendanceModel.RoundedMinutes: it rounds the exact quotient of the span
  by 60000. The source rounds a floating-point quotient, and that precision
  is not represented here.
- Rendering the export as CSV is not modelled: the header, quoting without
  escaping, and `toLocaleString` formatting of instants, which depends on
  the locale. The export is modelled up to its rows of values.
- HTTP status codes, messages and response shapes are replaced by the
  tagged `Rejection` and `Saved` results.
- The race between the lookup and the create in check-in is concurrency,
  and the store is modelled as sequential. In the source a duplicate-key
  error from that race goes to the generic error handler rather than
  becoming a conflict.
- A note over 500 UTF-16 code units makes the create throw a validation error,
  which goes to the generic error handler. The model answers
  `ValidationFailed` with the store unchanged. The create only throws for a
  note of at most 500 code points: the check-in route's validator refuses a
  note of more than 500 code points before the handler runs, and so before
  the conflict test. On a day that already has a record, such a note gets a
  validation error from the source but `Conflict` from the model.
- Mongo's `createdAt`/`updatedAt` timestamps are not modelled.
- Record identities are modelled as the store's own counter, so invalid
  ObjectId strings, which the store rejects with a cast error, are not
  modelled.
- Sort strings other than `date` and `-date` are not modelled. The store
  would accept any field.
- Query parameters given twice (arrays) are not modelled, and neither are
  `page`/`limit` strings that do not parse as integers. The model takes
  page ≥ 1 and 1 ≤ limit ≤ 100, the bounds the request validators enforce.
- The request validators, routes, authentication, rate limiting and the
  database connection are plumbing. The validator for the live checkout
  route insists on a `manualCheckOutAt` field, which the handler never
  reads. That is outside this model.
- The user profile (its zone and default work duration) is read from the
  signed-in user. The user model is not part of this model, and its values
  are parameters.
- GetTodayDate, FormatDateToLocal: these have no contract of their own.
  Their properties are stated by `DayKeyShape`, `DayKeyOrder` and
  `DefaultZoneIsKolkata`.
- The transition functions `AttendanceRules.CheckIn`, `CheckOut`,
  `ManualCheckOut` and `DeleteAttendance`, and `History.GetHistory`,
  `GetHistoryRequest` and `ExportAttendance`, carry no `ensures` of their
  own. Their properties are the lemmas in `TransitionProperties` and
  `HistoryProperties`.
- The query, record and index definitions carry no `ensures` of their own
  either. The lemmas that state their properties are listed with each:
  - `History.HistoryQuery` (attendanceController.js:213-232):
    `ManualOverrideFilterExact`, `ActiveFilterAdmitsActive`,
    `ActiveFilterAdmitsElapsed`, `CompletedFilterSound`,
    `CompletedFilterMissesElapsed`, `OtherStatusValuesIgnored`,
    `DateBoundsInclusive`, `MissingBoundsAdmitAll`, `DateRangeSelectsDays`.
  - `History.ExportQuery` (:350-356): `DateBoundsInclusive`,
    `OtherStatusValuesIgnored`, `ExportContents`.
  - `History.EnrichForHistory` (:247-266):
    `HistoryEnrichmentMatchesVirtuals`.
  - `History.ExportRowOf` (:363-386): `ExportRowMatchesVirtuals`.
  - `History.Skip` (:235): `EachPositionOnOnePage`, `PageShowsPositionOnce`.
  - `AttendanceModel.SchemaValid` (Attendance.js:4-37): `Utf16Length`,
    `CheckInCreates`, `CheckInRejectsLongNote`, `CheckInCountsUtf16Units`.
  - `AttendanceRules.UniqueDays` (Attendance.js:43): `FindByDay`,
    `CheckInOnlyRecordOfDay`, `SecondCheckInConflicts`, the
    `KeepsWellFormed` lemmas and `MatchingDistinctDays`.
