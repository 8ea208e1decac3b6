/**
 * What the listings promise: their per-record values agree with the record's
 * derived values, the date bounds are inclusive and select whole days, pages
 * split the listing without gaps or overlaps, and the status filter relates
 * to the derived status as stated here (exactly for overrides, loosely for
 * the other two).
 */
module HistoryProperties {
  import opened Wrappers
  import opened DateUtils
  import opened AttendanceModel
  import opened AttendanceRules
  import opened History
  import StringOrder

  // ---------------------------------------------------------------------------
  // Enrichment agrees with the record's derived values

  /** The history's inline computation gives the record's actual checkout, duration and status. */
  lemma HistoryEnrichmentMatchesVirtuals(r: Record, now: Instant)
    ensures EnrichForHistory(r, now) == Enriched(r, ActualCheckOutAt(r), DurationMinutes(r), StatusOf(r, now))
  {
  }

  /** An export row carries the record's duration and its status under the export's labels. */
  lemma ExportRowMatchesVirtuals(r: Record, now: Instant)
    ensures var row := ExportRowOf(r, now);
            && row.date == r.date && row.checkInAt == r.checkInAt
            && row.durationMinutes == DurationMinutes(r)
            && row.status == ExportLabel(StatusOf(r, now))
            && row.note == (if r.note.Some? then r.note.value else "")
  {
  }

  // ---------------------------------------------------------------------------
  // History pages

  /**
   * A history page holds at most `limit` records; each is a record of the
   * user that matches the query, enriched with its derived values; they come
   * in the requested day order, one per day; the page counters describe all
   * matching records.
   */
  lemma HistoryPageContents(db: Db, userId: UserId, page: nat, limit: nat, from: Option<string>,
                            to: Option<string>, order: SortOrder, status: Option<string>, now: Instant)
    requires UniqueDays(db)
    requires page >= 1 && 1 <= limit <= 100
    ensures var h := GetHistory(db, userId, page, limit, from, to, order, status, now);
            var q := HistoryQuery(userId, from, to, status);
            var total := |MatchingIds(db, q)|;
            && |h.records| <= limit
            && h.pagination == Pagination(page, PageCount(total, limit), total, limit)
            && (forall k :: 0 <= k < |h.records| ==>
                  && h.records[k].record in db.Values
                  && Matches(q, h.records[k].record)
                  && h.records[k] == Enriched(h.records[k].record, ActualCheckOutAt(h.records[k].record),
                                              DurationMinutes(h.records[k].record),
                                              StatusOf(h.records[k].record, now)))
            && (forall k, l :: 0 <= k < l < |h.records| ==>
                  && h.records[k].record.date != h.records[l].record.date
                  && InOrder(h.records[k].record.date, h.records[l].record.date, order))
  {
    var h := GetHistory(db, userId, page, limit, from, to, order, status, now);
    var xs := HistoryListing(db, userId, from, to, order, status);
    var q := HistoryQuery(userId, from, to, status);
    MatchingDistinctDays(db, q);
    var listed := PageSlice(xs, Skip(page, limit), limit);
    forall k | 0 <= k < |h.records|
      ensures h.records[k].record == db[xs[Skip(page, limit) + k]]
      ensures h.records[k] == Enriched(h.records[k].record, ActualCheckOutAt(h.records[k].record),
                                       DurationMinutes(h.records[k].record), StatusOf(h.records[k].record, now))
    {
      HistoryEnrichmentMatchesVirtuals(db[listed[k]], now);
    }
  }

  /**
   * A request without page, limit or sort gets the first page of ten
   * records, newest day first: the page starts with the latest matching day
   * and goes strictly backwards.
   */
  lemma DefaultHistoryRequest(db: Db, userId: UserId, from: Option<string>, to: Option<string>,
                              status: Option<string>, now: Instant)
    requires UniqueDays(db)
    ensures var h := GetHistoryRequest(db, userId, None, None, from, to, None, status, now);
            var total := |MatchingIds(db, HistoryQuery(userId, from, to, status))|;
            && h.pagination.currentPage == 1 && h.pagination.limit == 10 && h.pagination.totalRecords == total
            && |h.records| == (if total < 10 then total else 10)
            && (forall k, l :: 0 <= k < l < |h.records| ==>
                  StringOrder.Less(h.records[l].record.date, h.records[k].record.date))
            && (|h.records| > 0 ==>
                  forall i :: i in MatchingIds(db, HistoryQuery(userId, from, to, status)) ==>
                    StringOrder.LessEq(db[i].date, h.records[0].record.date))
  {
    var h := GetHistoryRequest(db, userId, None, None, from, to, None, status, now);
    var xs := HistoryListing(db, userId, from, to, DateDescending, status);
    HistoryPageContents(db, userId, 1, 10, from, to, DateDescending, status, now);
    HistoryShowsListing(db, userId, 1, 10, from, to, DateDescending, status, now);
    if |h.records| > 0 {
      forall i | i in MatchingIds(db, HistoryQuery(userId, from, to, status))
        ensures StringOrder.LessEq(db[i].date, h.records[0].record.date)
      {
        var l :| 0 <= l < |xs| && xs[l] == i;
        if l == 0 {
          StringOrder.LessEqReflexive(db[i].date);
        }
      }
    }
  }

  /** In a listing without repeats, position `pos` shows on page `pos / limit + 1` only, once. */
  lemma PageShowsPositionOnce(xs: seq<RecordId>, limit: nat, pos: nat, page: nat)
    requires forall k, l :: 0 <= k < l < |xs| ==> xs[k] != xs[l]
    requires 1 <= limit && pos < |xs| && page >= 1
    ensures var shown := PageSlice(xs, Skip(page, limit), limit);
            forall k :: 0 <= k < |shown| && shown[k] == xs[pos] <==> page == pos / limit + 1 && k == pos % limit
  {
    var shown := PageSlice(xs, Skip(page, limit), limit);
    EachPositionOnOnePage(|xs|, limit, pos, page);
    forall k | 0 <= k < |shown|
      ensures shown[k] == xs[pos] <==> Skip(page, limit) + k == pos
    {
    }
  }

  /**
   * Pages split the listing: the record at position `pos` of the listing is
   * shown on exactly one page, `pos / limit + 1`, which exists, at one
   * position; every other page omits it.
   */
  lemma EachRecordOnExactlyOnePage(db: Db, userId: UserId, page: nat, limit: nat, from: Option<string>,
                                   to: Option<string>, order: SortOrder, status: Option<string>, now: Instant,
                                   pos: nat)
    requires UniqueDays(db) && page >= 1 && 1 <= limit <= 100
    requires pos < |HistoryListing(db, userId, from, to, order, status)|
    ensures var xs := HistoryListing(db, userId, from, to, order, status);
            var h := GetHistory(db, userId, page, limit, from, to, order, status, now);
            && pos / limit + 1 <= h.pagination.totalPages
            && forall k :: 0 <= k < |h.records| ==>
                 (h.records[k].record == db[xs[pos]] <==> page == pos / limit + 1 && k == pos % limit)
  {
    var xs := HistoryListing(db, userId, from, to, order, status);
    EachPositionOnOnePage(|xs|, limit, pos, page);
    PageShowsPositionOnce(xs, limit, pos, page);
    var listed := PageSlice(xs, Skip(page, limit), limit);
    var h := GetHistory(db, userId, page, limit, from, to, order, status, now);
    HistoryShowsListing(db, userId, page, limit, from, to, order, status, now);
    forall k | 0 <= k < |h.records|
      ensures h.records[k].record == db[xs[pos]] <==> page == pos / limit + 1 && k == pos % limit
    {
      ListedRecordsDiffer(db, userId, from, to, order, status, listed[k], xs[pos]);
    }
  }

  /** A history page shows the records of its slice of the listing, and counts pages of the whole listing. */
  lemma HistoryShowsListing(db: Db, userId: UserId, page: nat, limit: nat, from: Option<string>,
                            to: Option<string>, order: SortOrder, status: Option<string>, now: Instant)
    requires UniqueDays(db) && page >= 1 && 1 <= limit <= 100
    ensures var xs := HistoryListing(db, userId, from, to, order, status);
            var listed := PageSlice(xs, Skip(page, limit), limit);
            var h := GetHistory(db, userId, page, limit, from, to, order, status, now);
            && |h.records| == |listed|
            && h.pagination.totalPages == PageCount(|xs|, limit)
            && forall k :: 0 <= k < |listed| ==> listed[k] in db && h.records[k].record == db[listed[k]]
  {
  }

  /** Two different records of one listing are different values. */
  lemma ListedRecordsDiffer(db: Db, userId: UserId, from: Option<string>, to: Option<string>, order: SortOrder,
                            status: Option<string>, i: RecordId, j: RecordId)
    requires UniqueDays(db)
    requires i in HistoryListing(db, userId, from, to, order, status)
    requires j in MatchingIds(db, HistoryQuery(userId, from, to, status))
    ensures i in db && (db[i] == db[j] <==> i == j)
  {
    MatchingDistinctDays(db, HistoryQuery(userId, from, to, status));
  }

  // ---------------------------------------------------------------------------
  // Date range

  /** A bound equal to a record's day admits it: both bounds are inclusive. */
  lemma DateBoundsInclusive(userId: UserId, date: string, status: Option<string>)
    ensures InDateRange(HistoryQuery(userId, Some(date), Some(date), status), date)
    ensures InDateRange(ExportQuery(userId, Some(date), Some(date)), date)
  {
    StringOrder.LessEqReflexive(date);
  }

  /** Absent or empty bounds do not restrict the range. */
  lemma MissingBoundsAdmitAll(userId: UserId, from: Option<string>, to: Option<string>, status: Option<string>,
                              date: string)
    requires !Given(from) && !Given(to)
    ensures InDateRange(HistoryQuery(userId, from, to, status), date)
  {
  }

  /**
   * With day keys as bounds, the string range selects exactly the days from
   * the first bound's to the second bound's, both included.
   */
  lemma DateRangeSelectsDays(userId: UserId, first: CivilDate, last: CivilDate, day: CivilDate,
                             status: Option<string>)
    requires ValidDate(first) && ValidDate(last) && ValidDate(day)
    requires InFourDigitYears(first) && InFourDigitYears(last) && InFourDigitYears(day)
    ensures InDateRange(HistoryQuery(userId, Some(FormatDate(first)), Some(FormatDate(last)), status),
                        FormatDate(day))
            <==> DateLessEq(first, day) && DateLessEq(day, last)
  {
    FormatDateShape(first);
    FormatDateShape(last);
    FormatDateOrder(first, day);
    FormatDateOrder(day, last);
  }

  // ---------------------------------------------------------------------------
  // Status filter, as the history handler builds it

  function StatusQuery(userId: UserId, name: string): Query
  {
    HistoryQuery(userId, None, None, Some(name))
  }

  /** The "manual_override" filter selects exactly the records whose status is an override. */
  lemma ManualOverrideFilterExact(userId: UserId, r: Record, now: Instant)
    ensures MatchesStatusClauses(StatusQuery(userId, "manual_override"), r)
            <==> StatusOf(r, now) == ManualOverride
  {
  }

  /** Every record whose status is active passes the "active" filter. */
  lemma ActiveFilterAdmitsActive(userId: UserId, r: Record, now: Instant)
    requires Consistent(r)
    requires StatusOf(r, now) == Active
    ensures MatchesStatusClauses(StatusQuery(userId, "active"), r)
  {
  }

  /**
   * The "active" filter also admits records whose status is completed: a
   * record not checked out whose computed checkout has passed.
   */
  lemma ActiveFilterAdmitsElapsed(userId: UserId, r: Record, now: Instant)
    requires !r.isCheckedOut && r.manualCheckOutAt.None? && now >= r.computedCheckOutAt
    ensures MatchesStatusClauses(StatusQuery(userId, "active"), r)
    ensures StatusOf(r, now) == Completed
  {
  }

  /** Every record the "completed" filter selects has status completed. */
  lemma CompletedFilterSound(userId: UserId, r: Record, now: Instant)
    requires Consistent(r)
    requires MatchesStatusClauses(StatusQuery(userId, "completed"), r)
    ensures StatusOf(r, now) == Completed
  {
  }

  /**
   * The "completed" filter leaves out records whose status is completed only
   * because their computed checkout has passed.
   */
  lemma CompletedFilterMissesElapsed(userId: UserId, r: Record, now: Instant)
    requires !r.isCheckedOut && r.manualCheckOutAt.None? && now >= r.computedCheckOutAt
    ensures !MatchesStatusClauses(StatusQuery(userId, "completed"), r)
    ensures StatusOf(r, now) == Completed
  {
  }

  /** An absent, empty or unknown status value adds no status clause. */
  lemma OtherStatusValuesIgnored(userId: UserId, from: Option<string>, to: Option<string>, status: Option<string>)
    requires !Given(status) || status.value !in {"active", "completed", "manual_override"}
    ensures HistoryQuery(userId, from, to, status) == ExportQuery(userId, from, to)
  {
  }

  // ---------------------------------------------------------------------------
  // Export

  /**
   * The export has one row per record of the user in the date range, whatever
   * its status, by ascending day, each row that record's export row.
   */
  lemma ExportContents(db: Db, userId: UserId, from: Option<string>, to: Option<string>, now: Instant)
    requires UniqueDays(db)
    ensures var rows := ExportAttendance(db, userId, from, to, now);
            var xs := HistoryListing(db, userId, from, to, DateAscending, None);
            && |rows| == |xs| == |MatchingIds(db, ExportQuery(userId, from, to))|
            && (forall k :: 0 <= k < |rows| ==>
                  && rows[k] == ExportRowOf(db[xs[k]], now)
                  && rows[k].status == ExportLabel(StatusOf(db[xs[k]], now))
                  && rows[k].durationMinutes == DurationMinutes(db[xs[k]]))
            && (forall k, l :: 0 <= k < l < |rows| ==> StringOrder.Less(rows[k].date, rows[l].date))
  {
    var rows := ExportAttendance(db, userId, from, to, now);
    var xs := HistoryListing(db, userId, from, to, DateAscending, None);
    MatchingDistinctDays(db, ExportQuery(userId, from, to));
    forall k | 0 <= k < |rows|
      ensures rows[k].status == ExportLabel(StatusOf(db[xs[k]], now))
      ensures rows[k].durationMinutes == DurationMinutes(db[xs[k]])
    {
      ExportRowMatchesVirtuals(db[xs[k]], now);
    }
  }
}
