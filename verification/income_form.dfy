/** The daily entry form (components/income-form.tsx): the fixed profit split,
    the live preview, and the submit handler that inserts one record. */
module IncomeForm {
  import opened Collections
  import opened Schema
  import opened Store

  /** Teacher's share per student. */
  const TeacherRate: real := 12.5
  /** School's share per student. */
  const SchoolRate: real := 2.5
  /** The price field's initial and reset value, '15'. */
  const DefaultPrice: real := 15.0

  datatype Amounts = Amounts(teacherProfit: real, schoolProfit: real, total: real)

  /** The three derived amounts of an entry. The split depends on the student count
      only; the total depends on the price too. */
  function Compute(students: nat, price: real): (a: Amounts)
    ensures a.teacherProfit + a.schoolProfit == students as real * 15.0
    ensures a.teacherProfit == 5.0 * a.schoolProfit
    ensures a.total == students as real * price
    ensures students == 0 ==> a == Amounts(0.0, 0.0, 0.0)
  {
    Amounts(students as real * TeacherRate, students as real * SchoolRate, students as real * price)
  }

  /** A row obeys the fixed split and the price formula. */
  predicate FollowsRates(r: Record) {
    r.teacherProfit == r.studentsCount as real * TeacherRate
    && r.schoolProfit == r.studentsCount as real * SchoolRate
    && r.total == r.studentsCount as real * r.pricePerStudent
  }

  /** The row the submit handler sends to `insert`; the id and creation time are the
      backend's. */
  function NewRecord(user: UserId, date: Date, students: nat, price: real, id: string, createdAt: string): (r: Record)
    ensures FollowsRates(r)
    ensures r.userId == user && r.date == date
    ensures r.studentsCount == students && r.pricePerStudent == price
    ensures r.id == id && r.createdAt == createdAt
  {
    var a := Compute(students, price);
    Record(id, user, date, students, price, a.teacherProfit, a.schoolProfit, a.total, createdAt)
  }

  /** The total equals the two profits together only at the default price (or with
      no students): the total is not derived from the split. */
  lemma TotalIndependentOfSplit(students: nat, price: real)
    ensures var a := Compute(students, price);
            a.total == a.teacherProfit + a.schoolProfit <==> students == 0 || price == DefaultPrice
  {
    var s := students as real;
    if s != 0.0 && s * price == s * 15.0 {
      assert s * (price - 15.0) == 0.0;
    }
  }

  /** The preview block, shown while both fields are non-empty. */
  function Preview(studentsField: Option<nat>, priceField: Option<real>): (p: Option<Amounts>)
    ensures p.Some? <==> studentsField.Some? && priceField.Some?
    ensures p.Some? ==> p.value.teacherProfit + p.value.schoolProfit == studentsField.value as real * 15.0
  {
    if studentsField.Some? && priceField.Some? then Some(Compute(studentsField.value, priceField.value))
    else None
  }

  /** The preview shows exactly the amounts a submission of the same fields stores. */
  lemma PreviewMatchesSubmission(user: UserId, date: Date, students: nat, price: real, id: string, createdAt: string)
    ensures var r := NewRecord(user, date, students, price, id, createdAt);
            Preview(Some(students), Some(price)) == Some(Amounts(r.teacherProfit, r.schoolProfit, r.total))
  {
  }

  /** Sums over rows that obey the split obey it too. */
  lemma {:induction false} AggregateFollowsRates(s: seq<Record>)
    requires forall r :: r in s ==> FollowsRates(r)
    ensures Aggregate(s).teacherProfit == Aggregate(s).students as real * TeacherRate
    ensures Aggregate(s).schoolProfit == Aggregate(s).students as real * SchoolRate
    decreases |s|
  {
    if s != [] {
      var init := s[..|s| - 1];
      assert forall r :: r in init ==> r in s;
      assert s[|s| - 1] in s;
      AggregateFollowsRates(init);
    }
  }

  /** There is no duplicate-date check: two inserts on one date leave two more rows
      with that date. */
  lemma NoDuplicateDateCheck(db: Db, r1: Record, r2: Record)
    requires r1.date == r2.date
    ensures |RecordsOn(InsertRecord(InsertRecord(db, r1), r2).records, r1.date)|
            == |RecordsOn(db.records, r1.date)| + 2
  {
    var p := (x: Record) => x.date == r1.date;
    FilterSnoc(db.records, r1, p);
    FilterSnoc(db.records + [r1], r2, p);
  }

  /** The form's state: the three fields and the submit button's busy flag. A field
      holding '' is None. */
  class FormState {
    var date: Date
    var studentsCount: Option<nat>
    var pricePerStudent: Option<real>
    var loading: bool

    constructor(today: Date)
      ensures date == today && studentsCount == None && pricePerStudent == Some(DefaultPrice)
      ensures !loading
    {
      date := today;
      studentsCount := None;
      pricePerStudent := Some(DefaultPrice);
      loading := false;
    }

    /** `handleSubmit`: no user, nothing written and the fields kept; otherwise one
        insert, and only a successful one clears the count, resets the price and
        fires the refresh callback (`recordAdded`). The inputs are `required`, so the
        browser submits only with both fields filled. */
    method HandleSubmit(user: Option<UserId>, insertSucceeds: bool, newId: string, now: string, db: Db)
      returns (db': Db, recordAdded: bool)
      requires studentsCount.Some? && pricePerStudent.Some?
      modifies this
      ensures !loading && date == old(date)
      ensures recordAdded <==> user.Some? && insertSucceeds
      ensures recordAdded ==>
        && db' == InsertRecord(db, NewRecord(user.value, date, old(studentsCount).value,
                                             old(pricePerStudent).value, newId, now))
        && studentsCount == None && pricePerStudent == Some(DefaultPrice)
      ensures !recordAdded ==>
        db' == db && studentsCount == old(studentsCount) && pricePerStudent == old(pricePerStudent)
    {
      loading := true;
      var students, price := studentsCount.value, pricePerStudent.value;
      recordAdded := false;
      db' := db;
      if user.None? {
        loading := false;
        return;
      }
      var row := NewRecord(user.value, date, students, price, newId, now);
      if insertSucceeds {
        db' := InsertRecord(db, row);
      }
      loading := false;
      if insertSucceeds {
        studentsCount := None;
        pricePerStudent := Some(DefaultPrice);
        recordAdded := true;
      }
    }
  }
}
