/** The row shapes of the two tables, `records` and `archives` (lib/supabase.ts),
    calendar dates, and the four running sums every screen computes with `reduce`. */
module Schema {
  import opened Collections

  type UserId = string

  /** A `date` column value 'YYYY-MM-DD', kept as its three numbers. */
  datatype Date = Date(year: nat, month: nat, day: nat)

  predicate IsLeapYear(year: nat) {
    (year % 4 == 0 && year % 100 != 0) || year % 400 == 0
  }

  /** The number of days in a month of the Gregorian calendar (31 for a month number
      outside 1..12, which no valid date has). */
  function DaysInMonth(year: nat, month: nat): (n: nat)
    ensures 28 <= n <= 31
  {
    if month == 2 then (if IsLeapYear(year) then 29 else 28)
    else if month == 4 || month == 6 || month == 9 || month == 11 then 30
    else 31
  }

  predicate ValidDate(d: Date) {
    1 <= d.month <= 12 && 1 <= d.day <= DaysInMonth(d.year, d.month)
  }

  /** Chronological order of days: `a` is on or before `b`. */
  predicate DateLe(a: Date, b: Date) {
    a.year < b.year
    || (a.year == b.year && a.month < b.month)
    || (a.year == b.year && a.month == b.month && a.day <= b.day)
  }

  /** One row of `records`: a day's tutoring entry. */
  datatype Record = Record(
    id: string,
    userId: UserId,
    date: Date,
    studentsCount: nat,
    pricePerStudent: real,
    teacherProfit: real,
    schoolProfit: real,
    total: real,
    createdAt: string)

  /** One row of `archives`: a month's snapshot with its records embedded. */
  datatype Archive = Archive(
    id: string,
    userId: UserId,
    month: nat,
    year: nat,
    totalStudents: nat,
    totalTeacherProfit: real,
    totalSchoolProfit: real,
    totalIncome: real,
    recordsData: seq<Record>,
    createdAt: string)

  /** The four sums: students, teacher profit, school profit and income. */
  datatype Totals = Totals(students: nat, teacherProfit: real, schoolProfit: real, income: real)
  {
    /** One step of `reduce((sum, r) => sum + r.field, 0)` on every field at once. */
    function Add(r: Record): Totals {
      Totals(students + r.studentsCount, teacherProfit + r.teacherProfit,
             schoolProfit + r.schoolProfit, income + r.total)
    }

    function Plus(other: Totals): Totals {
      Totals(students + other.students, teacherProfit + other.teacherProfit,
             schoolProfit + other.schoolProfit, income + other.income)
    }
  }

  const Zero := Totals(0, 0.0, 0.0, 0.0)

  /** The left fold `reduce` performs over a list of records, for all four fields. */
  function Aggregate(s: seq<Record>): (t: Totals)
    ensures s == [] ==> t == Zero
  {
    if s == [] then Zero else Aggregate(s[..|s| - 1]).Add(s[|s| - 1])
  }

  /** The records dated `d`, in input order. */
  function RecordsOn(records: seq<Record>, d: Date): (r: seq<Record>)
    ensures forall x :: x in r <==> x in records && x.date == d
  {
    Filter(records, (x: Record) => x.date == d)
  }

  lemma RecordsOnSnoc(records: seq<Record>, x: Record, d: Date)
    ensures RecordsOn(records + [x], d) == RecordsOn(records, d) + (if x.date == d then [x] else [])
  {
    FilterSnoc(records, x, (y: Record) => y.date == d);
  }

  lemma AggregateSnoc(s: seq<Record>, r: Record)
    ensures Aggregate(s + [r]) == Aggregate(s).Add(r)
  {
    assert (s + [r])[..|s|] == s;
  }

  /** Additivity: the sums over a concatenation are the sums of the parts. */
  lemma {:induction false} AggregateAppend(a: seq<Record>, b: seq<Record>)
    ensures Aggregate(a + b) == Aggregate(a).Plus(Aggregate(b))
    decreases |b|
  {
    if b == [] {
      assert a + b == a;
      assert Aggregate(b) == Zero;
      assert Aggregate(a).Plus(Zero) == Aggregate(a);
    } else {
      var init, last := b[..|b| - 1], b[|b| - 1];
      assert (a + b)[..|a + b| - 1] == a + init;
      assert Aggregate(b) == Aggregate(init).Add(last);
      AggregateAppend(a, init);
      var x, y := Aggregate(a), Aggregate(init);
      calc {
        Aggregate(a + b);
        Aggregate(a + init).Add(last);
        x.Plus(y).Add(last);
        { AddAfterPlus(x, y, last); }
        x.Plus(y.Add(last));
        x.Plus(Aggregate(b));
      }
    }
  }

  lemma AddAfterPlus(x: Totals, y: Totals, r: Record)
    ensures x.Plus(y).Add(r) == x.Plus(y.Add(r))
  {
  }

  /** The sums over a single record are that record's fields. */
  lemma AggregateSingleton(r: Record)
    ensures Aggregate([r]) == Totals(r.studentsCount, r.teacherProfit, r.schoolProfit, r.total)
  {
    assert [r][..0] == [];
  }
}
