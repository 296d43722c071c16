/** The current-month summary (components/monthly-summary.tsx): the month's records,
    their four sums, the per-day chart series, and the "archive this month" handler
    that checks for an existing archive, inserts a snapshot and then purges records. */
module MonthlySummary {
  import opened Collections
  import opened Schema
  import opened Store
  import IncomeForm

  /** `startOfMonth(today)`. */
  function MonthStart(today: Date): Date {
    Date(today.year, today.month, 1)
  }

  /** `endOfMonth(today)`: the month's last day. */
  function MonthEnd(today: Date): Date {
    Date(today.year, today.month, DaysInMonth(today.year, today.month))
  }

  /** `recordDate >= monthStart && recordDate <= monthEnd`. */
  predicate InCurrentMonth(d: Date, today: Date) {
    DateLe(MonthStart(today), d) && DateLe(d, MonthEnd(today))
  }

  /** For valid dates the inclusive range test is "same year and same month". */
  lemma CurrentMonthIsCalendarMonth(d: Date, today: Date)
    requires ValidDate(d) && ValidDate(today)
    ensures InCurrentMonth(d, today) <==> d.year == today.year && d.month == today.month
  {
  }

  /** `monthlyRecords`: the records of the current month, in input order. */
  function MonthlyRecords(records: seq<Record>, today: Date): (r: seq<Record>)
    ensures forall x :: x in r <==> x in records && InCurrentMonth(x.date, today)
    ensures |r| <= |records|
  {
    Filter(records, (x: Record) => InCurrentMonth(x.date, today))
  }

  /** `monthlyStats`: the four sums over `monthlyRecords`; all zero without any. */
  function MonthlyStats(records: seq<Record>, today: Date): (t: Totals)
    ensures MonthlyRecords(records, today) == [] ==> t == Zero
  {
    Aggregate(MonthlyRecords(records, today))
  }

  /** The monthly sums are additive over the record list. */
  lemma MonthlyStatsAdditive(a: seq<Record>, b: seq<Record>, today: Date)
    ensures MonthlyStats(a + b, today) == MonthlyStats(a, today).Plus(MonthlyStats(b, today))
  {
    var p := (x: Record) => InCurrentMonth(x.date, today);
    FilterAppend(a, b, p);
    AggregateAppend(MonthlyRecords(a, today), MonthlyRecords(b, today));
  }

  /** A record adds to the monthly sums exactly when its date is in the current month. */
  lemma MonthlyStatsSnoc(records: seq<Record>, r: Record, today: Date)
    ensures MonthlyStats(records + [r], today)
            == if InCurrentMonth(r.date, today) then MonthlyStats(records, today).Add(r)
               else MonthlyStats(records, today)
  {
    var p := (x: Record) => InCurrentMonth(x.date, today);
    FilterSnoc(records, r, p);
    if p(r) {
      assert MonthlyRecords(records + [r], today) == MonthlyRecords(records, today) + [r];
      AggregateSnoc(MonthlyRecords(records, today), r);
    } else {
      assert MonthlyRecords(records + [r], today) == MonthlyRecords(records, today);
    }
  }

  /** One bar of the chart: a raw date with its summed profits. (The displayed label
      'd MMM' and the sort on it are not modelled.) */
  datatype ChartPoint = ChartPoint(date: Date, teacherProfit: real, schoolProfit: real)

  function Dates(records: seq<Record>): set<Date> {
    set r | r in records :: r.date
  }

  function PointDates(points: seq<ChartPoint>): set<Date> {
    set p | p in points :: p.date
  }

  predicate DistinctDates(points: seq<ChartPoint>) {
    forall i, j :: 0 <= i < j < |points| ==> points[i].date != points[j].date
  }

  /** A point carries the profit sums of the records on its date. */
  predicate SumsOfDate(p: ChartPoint, records: seq<Record>) {
    p.teacherProfit == Aggregate(RecordsOn(records, p.date)).teacherProfit
    && p.schoolProfit == Aggregate(RecordsOn(records, p.date)).schoolProfit
  }

  /** `dataMap.get(dateKey)`: the position of the point for `d`, or -1. */
  function IndexOfDate(points: seq<ChartPoint>, d: Date): (k: int)
    ensures -1 <= k < |points|
    ensures k >= 0 ==> points[k].date == d
    ensures k < 0 ==> d !in PointDates(points)
  {
    if points == [] then -1
    else if points[|points| - 1].date == d then |points| - 1
    else IndexOfDate(points[..|points| - 1], d)
  }

  /** The chart built so far from the records `seen`: one point per distinct date,
      each with the sums over that date. */
  predicate ChartOf(points: seq<ChartPoint>, seen: seq<Record>) {
    && DistinctDates(points)
    && PointDates(points) == Dates(seen)
    && forall j :: 0 <= j < |points| ==> SumsOfDate(points[j], seen)
  }

  lemma DatesSnoc(seen: seq<Record>, r: Record)
    ensures Dates(seen + [r]) == Dates(seen) + {r.date}
  {
    assert r in seen + [r];
    forall d | d in Dates(seen) ensures d in Dates(seen + [r]) {
      var x :| x in seen && x.date == d;
      assert x in seen + [r];
    }
  }

  lemma SumsKept(p: ChartPoint, seen: seq<Record>, r: Record)
    requires SumsOfDate(p, seen) && p.date != r.date
    ensures SumsOfDate(p, seen + [r])
  {
    RecordsOnSnoc(seen, r, p.date);
    assert RecordsOn(seen, p.date) + [] == RecordsOn(seen, p.date);
  }

  lemma SumsOpened(seen: seq<Record>, r: Record)
    requires r.date !in Dates(seen)
    ensures SumsOfDate(ChartPoint(r.date, r.teacherProfit, r.schoolProfit), seen + [r])
  {
    RecordsOnSnoc(seen, r, r.date);
    FilterNone(seen, (x: Record) => x.date == r.date);
    assert RecordsOn(seen + [r], r.date) == [r];
    AggregateSingleton(r);
  }

  lemma SumsMerged(p: ChartPoint, seen: seq<Record>, r: Record)
    requires SumsOfDate(p, seen) && p.date == r.date
    ensures SumsOfDate(p.(teacherProfit := p.teacherProfit + r.teacherProfit,
                          schoolProfit := p.schoolProfit + r.schoolProfit), seen + [r])
  {
    var before := RecordsOn(seen, r.date);
    RecordsOnSnoc(seen, r, r.date);
    assert RecordsOn(seen + [r], r.date) == before + [r];
    AggregateSnoc(before, r);
  }

  /** A record with a new date opens a point of its own. */
  lemma ChartOpenPoint(points: seq<ChartPoint>, seen: seq<Record>, r: Record)
    requires ChartOf(points, seen)
    requires r.date !in PointDates(points)
    ensures ChartOf(points + [ChartPoint(r.date, r.teacherProfit, r.schoolProfit)], seen + [r])
  {
    var q := ChartPoint(r.date, r.teacherProfit, r.schoolProfit);
    var points' := points + [q];
    forall j | 0 <= j < |points'| ensures SumsOfDate(points'[j], seen + [r]) {
      if j < |points| {
        assert points'[j] == points[j] && points[j] in points;
        SumsKept(points[j], seen, r);
      } else {
        SumsOpened(seen, r);
      }
    }
    forall i, j | 0 <= i < j < |points'| ensures points'[i].date != points'[j].date {
      assert points[i] in points;
    }
    assert q in points';
    assert PointDates(points') == PointDates(points) + {r.date} by {
      forall d | d in PointDates(points) ensures d in PointDates(points') {
        var x :| x in points && x.date == d;
        assert x in points';
      }
    }
    DatesSnoc(seen, r);
  }

  /** Adding a record's profits to the point `k` for its date. */
  function MergeInto(points: seq<ChartPoint>, k: nat, r: Record): seq<ChartPoint>
    requires k < |points|
  {
    points[k := points[k].(teacherProfit := points[k].teacherProfit + r.teacherProfit,
                           schoolProfit := points[k].schoolProfit + r.schoolProfit)]
  }

  lemma MergeKeepsDates(points: seq<ChartPoint>, k: nat, r: Record)
    requires k < |points|
    ensures |MergeInto(points, k, r)| == |points|
    ensures forall j :: 0 <= j < |points| ==> MergeInto(points, k, r)[j].date == points[j].date
    ensures DistinctDates(points) ==> DistinctDates(MergeInto(points, k, r))
    ensures PointDates(MergeInto(points, k, r)) == PointDates(points)
  {
    var points' := MergeInto(points, k, r);
    forall d | d in PointDates(points) ensures d in PointDates(points') {
      var x :| x in points && x.date == d;
      var j :| 0 <= j < |points| && points[j] == x;
      assert points'[j] in points';
    }
    forall d | d in PointDates(points') ensures d in PointDates(points) {
      var x :| x in points' && x.date == d;
      var j :| 0 <= j < |points'| && points'[j] == x;
      assert points[j] in points;
    }
  }

  lemma MergeKeepsSums(points: seq<ChartPoint>, seen: seq<Record>, r: Record, k: nat)
    requires forall j :: 0 <= j < |points| ==> SumsOfDate(points[j], seen)
    requires DistinctDates(points)
    requires k < |points| && points[k].date == r.date
    ensures forall j :: 0 <= j < |points| ==> SumsOfDate(MergeInto(points, k, r)[j], seen + [r])
  {
    forall j | 0 <= j < |points| ensures SumsOfDate(MergeInto(points, k, r)[j], seen + [r]) {
      if j == k {
        SumsMerged(points[k], seen, r);
      } else {
        SumsKept(points[j], seen, r);
      }
    }
  }

  /** A record with a date already present adds its profits to that point. */
  lemma ChartMergePoint(points: seq<ChartPoint>, seen: seq<Record>, r: Record, k: nat)
    requires ChartOf(points, seen)
    requires k < |points| && points[k].date == r.date
    ensures ChartOf(MergeInto(points, k, r), seen + [r])
  {
    MergeKeepsDates(points, k, r);
    MergeKeepsSums(points, seen, r, k);
    assert points[k] in points;
    assert r.date in Dates(seen);
    DatesSnoc(seen, r);
    assert Dates(seen + [r]) == Dates(seen);
  }

  /** `chartData`: one point per distinct date of the month's records, each holding
      the teacher and school profit summed over that date. The order of the points
      is not stated. */
  method ChartData(monthly: seq<Record>) returns (points: seq<ChartPoint>)
    ensures DistinctDates(points)
    ensures PointDates(points) == Dates(monthly)
    ensures forall j :: 0 <= j < |points| ==> SumsOfDate(points[j], monthly)
  {
    points := [];
    ghost var seen: seq<Record> := [];
    assert Dates([]) == {} && PointDates([]) == {};
    var i := 0;
    while i < |monthly|
      invariant 0 <= i <= |monthly|
      invariant seen == monthly[..i]
      invariant ChartOf(points, seen)
    {
      var r := monthly[i];
      assert monthly[..i + 1] == seen + [r];
      var k := IndexOfDate(points, r.date);
      if k < 0 {
        ChartOpenPoint(points, seen, r);
        points := points + [ChartPoint(r.date, r.teacherProfit, r.schoolProfit)];
      } else {
        ChartMergePoint(points, seen, r, k);
        points := MergeInto(points, k, r);
      }
      seen := seen + [r];
      i := i + 1;
    }
    assert seen == monthly;
  }

  /** What the archive button reports. */
  datatype ArchiveOutcome =
    | NoRecordsThisMonth
    | NotSignedIn
    | AlreadyArchived
    | InsertFailed
    | ArchivedNotPurged
    | Archived

  /** The archive row `handleArchive` inserts: the current month and year, the month's
      sums, and the month's records embedded as they are. */
  function Snapshot(user: UserId, records: seq<Record>, today: Date, id: string, now: string): (a: Archive)
    ensures IsFor(a, user, today.month, today.year)
    ensures a.recordsData == MonthlyRecords(records, today)
    ensures Totals(a.totalStudents, a.totalTeacherProfit, a.totalSchoolProfit, a.totalIncome) == Aggregate(a.recordsData)
  {
    var t := MonthlyStats(records, today);
    Archive(id, user, today.month, today.year, t.students, t.teacherProfit, t.schoolProfit, t.income,
            MonthlyRecords(records, today), now)
  }

  /** The snapshot holds exactly the month's records, its month and year are the
      records' own, and its totals are the sums over what it holds. */
  lemma SnapshotIsTheMonth(user: UserId, records: seq<Record>, today: Date, id: string, now: string)
    requires ValidDate(today)
    requires forall r :: r in records ==> ValidDate(r.date)
    ensures var a := Snapshot(user, records, today, id, now);
            && (forall r :: r in a.recordsData <==> r in records && r.date.year == a.year && r.date.month == a.month)
            && Aggregate(a.recordsData) == Totals(a.totalStudents, a.totalTeacherProfit, a.totalSchoolProfit, a.totalIncome)
  {
    forall r | r in records {
      CurrentMonthIsCalendarMonth(r.date, today);
    }
  }

  /** A snapshot of rows that obey the fixed split obeys it in its totals. */
  lemma SnapshotFollowsRates(user: UserId, records: seq<Record>, today: Date, id: string, now: string)
    requires forall r :: r in records ==> IncomeForm.FollowsRates(r)
    ensures var a := Snapshot(user, records, today, id, now);
            a.totalTeacherProfit == a.totalStudents as real * IncomeForm.TeacherRate
            && a.totalSchoolProfit == a.totalStudents as real * IncomeForm.SchoolRate
  {
    IncomeForm.AggregateFollowsRates(MonthlyRecords(records, today));
  }

  /** When the duplicate check runs and passes, inserting the snapshot keeps at most
      one archive per (user, month, year). */
  lemma ArchiveKeepsKeysUnique(db: Db, user: UserId, records: seq<Record>, today: Date, id: string, now: string)
    requires UniqueKeys(db.archives)
    requires ExistingArchive(db, user, today.month, today.year, false).None?
    ensures UniqueKeys(InsertArchive(db, Snapshot(user, records, today, id, now)).archives)
  {
    ExistingArchiveExact(db, user, today.month, today.year);
    InsertKeepsUnique(db, Snapshot(user, records, today, id, now));
  }

  /** The check's error is ignored: when it fails while an archive for the month is
      stored, the insert goes ahead and the month ends up archived twice. */
  lemma FailedCheckAllowsDuplicate(db: Db, user: UserId, records: seq<Record>, today: Date, id: string, now: string)
    requires exists b :: b in db.archives && IsFor(b, user, today.month, today.year)
    ensures ExistingArchive(db, user, today.month, today.year, true).None?
    ensures !UniqueKeys(InsertArchive(db, Snapshot(user, records, today, id, now)).archives)
  {
    var s := InsertArchive(db, Snapshot(user, records, today, id, now)).archives;
    var b :| b in db.archives && IsFor(b, user, today.month, today.year);
    var i :| 0 <= i < |db.archives| && db.archives[i] == b;
    assert s[i] == b && s[|s| - 1].userId == user;
  }

  /** The purge after a successful snapshot removes every record with a real id,
      including those of other months, which the snapshot does not hold. */
  lemma PurgeDropsOtherMonths(db: Db, user: UserId, records: seq<Record>, today: Date, id: string, now: string, r: Record)
    requires r in db.records && r.id != NilUuid
    requires !InCurrentMonth(r.date, today)
    ensures r !in PurgeRecords(InsertArchive(db, Snapshot(user, records, today, id, now))).records
    ensures r !in Snapshot(user, records, today, id, now).recordsData
  {
  }

  /** The summary's own state: the archive button's busy flag. */
  class SummaryState {
    var archiving: bool

    constructor()
      ensures !archiving
    {
      archiving := false;
    }

    /** `handleArchive`. `records` is the component's prop, `today` the clock;
        `checkFailed`, `insertSucceeds` and `deleteSucceeds` say how the three backend
        calls went, `newId` and `now` are what the backend assigns. Each failure stops
        the sequence before the next write; `completed` is `onArchiveComplete` firing. */
    method HandleArchive(records: seq<Record>, today: Date, user: Option<UserId>, checkFailed: bool,
                         insertSucceeds: bool, deleteSucceeds: bool, newId: string, now: string, db: Db)
      returns (db': Db, outcome: ArchiveOutcome, completed: bool)
      modifies this
      ensures outcome ==
        if MonthlyRecords(records, today) == [] then NoRecordsThisMonth
        else if user.None? then NotSignedIn
        else if ExistingArchive(db, user.value, today.month, today.year, checkFailed).Some? then AlreadyArchived
        else if !insertSucceeds then InsertFailed
        else if !deleteSucceeds then ArchivedNotPurged
        else Archived
      ensures outcome in {NoRecordsThisMonth, NotSignedIn, AlreadyArchived, InsertFailed} ==> db' == db
      ensures outcome == ArchivedNotPurged ==>
        db' == InsertArchive(db, Snapshot(user.value, records, today, newId, now))
      ensures outcome == Archived ==>
        db' == PurgeRecords(InsertArchive(db, Snapshot(user.value, records, today, newId, now)))
      ensures completed <==> outcome in {ArchivedNotPurged, Archived}
      ensures archiving == (if outcome == NoRecordsThisMonth then old(archiving) else false)
    {
      db', completed := db, false;
      var monthly := MonthlyRecords(records, today);
      if |monthly| == 0 {
        outcome := NoRecordsThisMonth;
        return;
      }
      archiving := true;
      if user.None? {
        outcome := NotSignedIn;
        archiving := false;
        return;
      }
      var existing := ExistingArchive(db, user.value, today.month, today.year, checkFailed);
      if existing.Some? {
        outcome := AlreadyArchived;
        archiving := false;
        return;
      }
      if !insertSucceeds {
        outcome := InsertFailed;
        archiving := false;
        return;
      }
      db' := InsertArchive(db, Snapshot(user.value, records, today, newId, now));
      if deleteSucceeds {
        db' := PurgeRecords(db');
        outcome := Archived;
      } else {
        outcome := ArchivedNotPurged;
      }
      completed := true;
      archiving := false;
    }
  }
}
