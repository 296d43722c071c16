/** The records table (components/records-table.tsx): today's summary card over the
    records dated today, and the table of every record. */
module RecordsTable {
  import opened Collections
  import opened Schema
  import MonthlySummary

  /** `todayRecords`: the records whose date is `today`, the UTC calendar date of
      the moment of rendering, kept in input order. */
  function TodayRecords(records: seq<Record>, today: Date): (r: seq<Record>)
    ensures forall x :: x in r <==> x in records && x.date == today
    ensures |r| <= |records|
  {
    RecordsOn(records, today)
  }

  /** The three figures of the summary card: students, the teacher's profit and the
      income. The school's share is not shown. */
  datatype TodayCard = TodayCard(students: nat, teacherProfit: real, total: real)

  function CardOf(t: Totals): TodayCard {
    TodayCard(t.students, t.teacherProfit, t.income)
  }

  /** The card appears exactly when some record is dated today, and then holds the
      sums over today's records alone. */
  function TodaySummary(records: seq<Record>, today: Date): (card: Option<TodayCard>)
    ensures card.Some? <==> exists x :: x in records && x.date == today
    ensures card.None? ==> forall x :: x in records ==> x.date != today
  {
    var rs := TodayRecords(records, today);
    if rs == [] then None
    else
      assert rs[0] in rs;
      Some(CardOf(Aggregate(rs)))
  }

  /** A new record changes the card only when it is dated today: it then opens the
      card with its own figures or adds them to the card's. */
  lemma TodaySummarySnoc(records: seq<Record>, r: Record, today: Date)
    ensures TodaySummary(records + [r], today)
            == if r.date != today then TodaySummary(records, today)
               else match TodaySummary(records, today)
                 case None => Some(TodayCard(r.studentsCount, r.teacherProfit, r.total))
                 case Some(c) => Some(TodayCard(c.students + r.studentsCount,
                                                c.teacherProfit + r.teacherProfit,
                                                c.total + r.total))
  {
    RecordsOnSnoc(records, r, today);
    var rs := TodayRecords(records, today);
    if r.date == today {
      assert TodayRecords(records + [r], today) == rs + [r];
      assert TodaySummary(records + [r], today) == Some(CardOf(Aggregate(rs + [r])));
      AggregateSnoc(rs, r);
      if rs == [] {
        assert rs + [r] == [r];
        AggregateSingleton(r);
      } else {
        assert TodaySummary(records, today) == Some(CardOf(Aggregate(rs)));
      }
    } else {
      assert rs + [] == rs;
      assert TodayRecords(records + [r], today) == rs;
    }
  }

  /** Students counted today are among those counted for the current month: for a
      valid date, the summary card never shows more students than the monthly
      summary. */
  lemma {:induction false} TodayWithinMonth(records: seq<Record>, today: Date)
    requires ValidDate(today)
    ensures Aggregate(TodayRecords(records, today)).students
            <= MonthlySummary.MonthlyStats(records, today).students
    decreases |records|
  {
    if records != [] {
      var init, x := records[..|records| - 1], records[|records| - 1];
      assert records == init + [x];
      TodayWithinMonth(init, today);
      RecordsOnSnoc(init, x, today);
      MonthlySummary.MonthlyStatsSnoc(init, x, today);
      var rs := TodayRecords(init, today);
      if x.date == today {
        assert MonthlySummary.InCurrentMonth(x.date, today);
        AggregateSnoc(rs, x);
      } else {
        assert rs + [] == rs;
      }
    }
  }

  /** The table's body: the empty-list message, or one row per record. */
  datatype TableBody = EmptyMessage | Rows(rows: seq<Record>)

  /** The body shows the message exactly when there are no records at all (not
      merely none today); otherwise every record is a row, in the order given. */
  function Body(records: seq<Record>): (b: TableBody)
    ensures b.EmptyMessage? <==> records == []
    ensures b.Rows? ==> |b.rows| == |records| && forall i :: 0 <= i < |records| ==> b.rows[i] == records[i]
  {
    if records == [] then EmptyMessage else Rows(records)
  }

  /** The summary card and the table are independent: the table can list records
      while the card is hidden, but a shown card implies a non-empty table. */
  lemma CardImpliesRows(records: seq<Record>, today: Date)
    ensures TodaySummary(records, today).Some? ==> Body(records).Rows?
    ensures exists r: Record :: r.date != today && TodaySummary([r], today).None? && Body([r]).Rows?
  {
    var r := Record("", "", Date(today.year + 1, 1, 1), 0, 0.0, 0.0, 0.0, 0.0, "");
    assert r.date != today;
    assert TodaySummary([r], today).None?;
  }
}
