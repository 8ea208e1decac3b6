/**
 * The listing reads: the attendance history (date range and status filter,
 * date order, pages, per-record enrichment) and the export (date range,
 * ascending date order, one row per record with the export's status labels).
 */
module History {
  import opened Wrappers
  import opened DateUtils
  import opened AttendanceModel
  import opened AttendanceRules
  import StringOrder

  // ---------------------------------------------------------------------------
  // Queries

  /** The condition a query puts on the manual override field. */
  datatype ManualClause = AnyManual | ManualIsNull | ManualNotNull

  /** A store query: owner, optional inclusive day-key bounds, and the status clauses. */
  datatype Query = Query(userId: UserId, dateFrom: Option<string>, dateTo: Option<string>,
                         isCheckedOut: Option<bool>, manual: ManualClause)

  /** A request parameter the handler treats as given: present and non-empty. */
  predicate Given(v: Option<string>)
  {
    v.Some? && v.value != ""
  }

  function BoundOf(v: Option<string>): (b: Option<string>)
    ensures b.Some? <==> Given(v)
    ensures b.Some? ==> b == v
  {
    if Given(v) then v else None
  }

  /** The history query, built clause by clause from the request. */
  function HistoryQuery(userId: UserId, from: Option<string>, to: Option<string>, status: Option<string>): Query
  {
    var q := Query(userId, BoundOf(from), BoundOf(to), None, AnyManual);
    if !Given(status) then q
    else if status.value == "active" then q.(isCheckedOut := Some(false))
    else if status.value == "completed" then q.(isCheckedOut := Some(true), manual := ManualIsNull)
    else if status.value == "manual_override" then q.(manual := ManualNotNull)
    else q
  }

  /** The export query: owner and date range only. */
  function ExportQuery(userId: UserId, from: Option<string>, to: Option<string>): Query
  {
    Query(userId, BoundOf(from), BoundOf(to), None, AnyManual)
  }

  /** The date-range part of a query, bounds inclusive, compared as strings. */
  predicate InDateRange(q: Query, date: string)
  {
    && (q.dateFrom.Some? ==> StringOrder.LessEq(q.dateFrom.value, date))
    && (q.dateTo.Some? ==> StringOrder.LessEq(date, q.dateTo.value))
  }

  /** The status part of a query. */
  predicate MatchesStatusClauses(q: Query, r: Record)
  {
    && (q.isCheckedOut.Some? ==> r.isCheckedOut == q.isCheckedOut.value)
    && (q.manual == ManualIsNull ==> r.manualCheckOutAt.None?)
    && (q.manual == ManualNotNull ==> r.manualCheckOutAt.Some?)
  }

  predicate Matches(q: Query, r: Record)
  {
    r.userId == q.userId && InDateRange(q, r.date) && MatchesStatusClauses(q, r)
  }

  function MatchingIds(db: Db, q: Query): (ids: set<RecordId>)
    ensures forall i :: i in ids <==> i in db && Matches(q, db[i])
  {
    set i | i in db && Matches(q, db[i])
  }

  // ---------------------------------------------------------------------------
  // Date order

  /** Sorting by "date" (ascending) or "-date" (descending). */
  datatype SortOrder = DateAscending | DateDescending

  /** Day key `a` may be listed before day key `b`. */
  predicate InOrder(a: string, b: string, order: SortOrder)
  {
    if order == DateAscending then StringOrder.LessEq(a, b) else StringOrder.LessEq(b, a)
  }

  lemma InOrderTotal(a: string, b: string, order: SortOrder)
    ensures InOrder(a, b, order) || InOrder(b, a, order)
  {
    StringOrder.LessEqTotal(a, b);
  }

  lemma InOrderTransitive(a: string, b: string, c: string, order: SortOrder)
    requires InOrder(a, b, order) && InOrder(b, c, order)
    ensures InOrder(a, c, order)
  {
    if order == DateAscending {
      StringOrder.LessEqTransitive(a, b, c);
    } else {
      StringOrder.LessEqTransitive(c, b, a);
    }
  }

  lemma InOrderAntisymmetric(a: string, b: string, order: SortOrder)
    requires InOrder(a, b, order) && InOrder(b, a, order)
    ensures a == b
  {
    StringOrder.LessEqAntisymmetric(a, b);
  }

  /** No two of the records `ids` share a day. */
  ghost predicate DistinctDays(db: Db, ids: set<RecordId>)
    requires ids <= db.Keys
  {
    forall i, j :: i in ids && j in ids && db[i].date == db[j].date ==> i == j
  }

  /** `i` is first among `ids` in the sort order. */
  predicate IsFirst(db: Db, ids: set<RecordId>, i: RecordId, order: SortOrder)
    requires ids <= db.Keys
  {
    i in ids && forall j :: j in ids ==> InOrder(db[i].date, db[j].date, order)
  }

  /** A non-empty set of records has a first one in either date order. */
  lemma {:induction false} FirstExists(db: Db, ids: set<RecordId>, order: SortOrder)
    requires ids <= db.Keys && ids != {}
    ensures exists i :: IsFirst(db, ids, i, order)
    decreases ids
  {
    var x :| x in ids;
    if ids == {x} {
      StringOrder.LessEqReflexive(db[x].date);
      assert IsFirst(db, ids, x, order);
    } else {
      var rest := ids - {x};
      FirstExists(db, rest, order);
      var m :| IsFirst(db, rest, m, order);
      InOrderTotal(db[x].date, db[m].date, order);
      if InOrder(db[x].date, db[m].date, order) {
        StringOrder.LessEqReflexive(db[x].date);
        forall j | j in ids
          ensures InOrder(db[x].date, db[j].date, order)
        {
          if j != x {
            InOrderTransitive(db[x].date, db[m].date, db[j].date, order);
          }
        }
        assert IsFirst(db, ids, x, order);
      } else {
        assert IsFirst(db, ids, m, order);
      }
    }
  }

  /** Among records with distinct days, the first one is unique. */
  lemma FirstUnique(db: Db, ids: set<RecordId>, order: SortOrder)
    requires ids <= db.Keys && DistinctDays(db, ids)
    ensures forall i, j :: IsFirst(db, ids, i, order) && IsFirst(db, ids, j, order) ==> i == j
  {
    forall i, j | IsFirst(db, ids, i, order) && IsFirst(db, ids, j, order)
      ensures i == j
    {
      InOrderAntisymmetric(db[i].date, db[j].date, order);
    }
  }

  /** Records `ids` listed in date order: each exactly once, each at or before the ones after it. */
  function Ordered(db: Db, ids: set<RecordId>, order: SortOrder): (xs: seq<RecordId>)
    requires ids <= db.Keys && DistinctDays(db, ids)
    ensures |xs| == |ids|
    ensures forall i :: i in ids <==> i in xs
    ensures forall k, l :: 0 <= k < l < |xs| ==> xs[k] != xs[l] && InOrder(db[xs[k]].date, db[xs[l]].date, order)
    decreases ids
  {
    if ids == {} then []
    else
      FirstExists(db, ids, order);
      FirstUnique(db, ids, order);
      var i :| IsFirst(db, ids, i, order);
      [i] + Ordered(db, ids - {i}, order)
  }

  /** Records of one user never share a day, so the user's matching records can be ordered by day. */
  lemma MatchingDistinctDays(db: Db, q: Query)
    requires UniqueDays(db)
    ensures MatchingIds(db, q) <= db.Keys && DistinctDays(db, MatchingIds(db, q))
  {
  }

  // ---------------------------------------------------------------------------
  // Pages

  /** Records skipped before page `page` (numbered from 1). */
  function Skip(page: nat, limit: nat): nat
    requires page >= 1
  {
    (page - 1) * limit
  }

  /** Number of pages of `limit` records that `total` records fill: the ceiling of the quotient. */
  function PageCount(total: nat, limit: nat): (n: nat)
    requires limit >= 1
    ensures n * limit >= total
    ensures n > 0 ==> (n - 1) * limit < total
  {
    (total + limit - 1) / limit
  }

  /** Up to `limit` elements of `xs` after the first `skip`. */
  function PageSlice<T>(xs: seq<T>, skip: nat, limit: nat): (p: seq<T>)
    ensures |p| == if skip >= |xs| then 0 else if skip + limit <= |xs| then limit else |xs| - skip
    ensures forall k :: 0 <= k < |p| ==> p[k] == xs[skip + k]
  {
    if skip >= |xs| then [] else xs[skip .. if skip + limit <= |xs| then skip + limit else |xs|]
  }

  /**
   * Every listed position lies on exactly one page: position `k` is on page
   * `k / limit + 1`, which is a page that exists, at offset `k % limit`.
   */
  lemma EachPositionOnOnePage(total: nat, limit: nat, k: nat, page: nat)
    requires limit >= 1 && k < total && page >= 1
    ensures Skip(page, limit) <= k < Skip(page, limit) + limit <==> page == k / limit + 1
    ensures k / limit + 1 <= PageCount(total, limit)
    ensures k - Skip(k / limit + 1, limit) == k % limit
  {
    var p := k / limit + 1;
    assert k == (p - 1) * limit + k % limit;
    if page < p {
      MulMonotone(page, p - 1, limit);
    } else if page > p {
      MulMonotone(p, page - 1, limit);
    }
    var n := PageCount(total, limit);
    if n < p {
      MulMonotone(n, p - 1, limit);
    }
  }

  lemma MulMonotone(a: nat, b: nat, c: nat)
    requires a <= b
    ensures a * c <= b * c
  {
  }

  // ---------------------------------------------------------------------------
  // Enrichment and results

  /** A listed record with the values the history adds to it. */
  datatype Enriched = Enriched(record: Record, actualCheckOutAt: Instant, durationMinutes: int, status: Status)

  /** The history's own computation of the added values, field by field from the record. */
  function EnrichForHistory(r: Record, now: Instant): Enriched
  {
    var actual := r.manualCheckOutAt.GetOr(r.checkOutAt.GetOr(r.computedCheckOutAt));
    var duration := RoundedMinutes(actual - r.checkInAt);
    var status :=
      if r.manualCheckOutAt.Some? then ManualOverride
      else if r.isCheckedOut && r.checkOutAt.Some? then Completed
      else if now >= r.computedCheckOutAt then Completed
      else Active;
    Enriched(r, actual, duration, status)
  }

  /** One export line before rendering: the record's day and instants, duration, status label and note. */
  datatype ExportRow = ExportRow(date: string, checkInAt: Instant, checkOutAt: Option<Instant>,
                                 computedCheckOutAt: Instant, manualCheckOutAt: Option<Instant>,
                                 durationMinutes: int, status: string, note: string)

  /** The export's own computation of a row. */
  function ExportRowOf(r: Record, now: Instant): ExportRow
  {
    var actual := r.manualCheckOutAt.GetOr(r.checkOutAt.GetOr(r.computedCheckOutAt));
    var duration := RoundedMinutes(actual - r.checkInAt);
    var status :=
      if r.manualCheckOutAt.Some? then "Manual Override"
      else if r.isCheckedOut && r.checkOutAt.Some? then "Completed"
      else if now >= r.computedCheckOutAt then "Completed"
      else "Active";
    ExportRow(r.date, r.checkInAt, r.checkOutAt, r.computedCheckOutAt, r.manualCheckOutAt,
              duration, status, r.note.GetOr(""))
  }

  datatype Pagination = Pagination(currentPage: nat, totalPages: nat, totalRecords: nat, limit: nat)

  datatype HistoryPage = HistoryPage(records: seq<Enriched>, pagination: Pagination)

  /** The matching records of the history request, in the requested date order. */
  function HistoryListing(db: Db, userId: UserId, from: Option<string>, to: Option<string>, order: SortOrder,
                          status: Option<string>): (xs: seq<RecordId>)
    requires UniqueDays(db)
    ensures forall i :: i in xs <==> i in MatchingIds(db, HistoryQuery(userId, from, to, status))
    ensures |xs| == |MatchingIds(db, HistoryQuery(userId, from, to, status))|
    ensures forall k :: 0 <= k < |xs| ==> xs[k] in db
    ensures forall k, l :: 0 <= k < l < |xs| ==> xs[k] != xs[l] && InOrder(db[xs[k]].date, db[xs[l]].date, order)
  {
    var q := HistoryQuery(userId, from, to, status);
    MatchingDistinctDays(db, q);
    Ordered(db, MatchingIds(db, q), order)
  }

  /** One page of the user's history, enriched, with the page arithmetic. */
  function GetHistory(db: Db, userId: UserId, page: nat, limit: nat, from: Option<string>, to: Option<string>,
                      order: SortOrder, status: Option<string>, now: Instant): HistoryPage
    requires UniqueDays(db)
    requires page >= 1 && 1 <= limit <= 100
  {
    var xs := HistoryListing(db, userId, from, to, order, status);
    var listed := PageSlice(xs, Skip(page, limit), limit);
    HistoryPage(seq(|listed|, k requires 0 <= k < |listed| => EnrichForHistory(db[listed[k]], now)),
                Pagination(page, PageCount(|xs|, limit), |xs|, limit))
  }

  /** Page, page size and sort order a request gets when it leaves them out. */
  const DefaultPage: nat := 1
  const DefaultLimit: nat := 10
  const DefaultOrder: SortOrder := DateDescending

  /** The history handler on the request as received: an absent page, limit or sort takes its default. */
  function GetHistoryRequest(db: Db, userId: UserId, page: Option<nat>, limit: Option<nat>, from: Option<string>,
                             to: Option<string>, sort: Option<SortOrder>, status: Option<string>, now: Instant)
    : HistoryPage
    requires UniqueDays(db)
    requires page.GetOr(DefaultPage) >= 1 && 1 <= limit.GetOr(DefaultLimit) <= 100
  {
    GetHistory(db, userId, page.GetOr(DefaultPage), limit.GetOr(DefaultLimit), from, to, sort.GetOr(DefaultOrder),
               status, now)
  }

  /** The export lines: every record of the user in the date range, by ascending day. */
  function ExportAttendance(db: Db, userId: UserId, from: Option<string>, to: Option<string>, now: Instant)
    : seq<ExportRow>
    requires UniqueDays(db)
  {
    var q := ExportQuery(userId, from, to);
    MatchingDistinctDays(db, q);
    var xs := Ordered(db, MatchingIds(db, q), DateAscending);
    seq(|xs|, k requires 0 <= k < |xs| => ExportRowOf(db[xs[k]], now))
  }
}
