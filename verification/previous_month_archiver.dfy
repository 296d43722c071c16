/** The month list and batch archiver (components/previous-month-archiver.tsx): the
    user's records grouped by `${year}-${month}`, each group summed and flagged when an
    archive of that month exists, the list newest first, a set of selected month keys,
    and the loop that archives the selected months one after another. */
module PreviousMonthArchiver {
  import opened Collections
  import opened Schema
  import opened Store
  import opened MonthKeys

  /** One entry of the month list. */
  datatype MonthlyData = MonthlyData(
    month: nat,
    year: nat,
    records: seq<Record>,
    totalStudents: nat,
    totalTeacherProfit: real,
    totalSchoolProfit: real,
    totalIncome: real,
    isArchived: bool)

  /** The sort key of the list. */
  function YearMonth(md: MonthlyData): (int, int) {
    (md.year, md.month)
  }

  function TotalsOf(md: MonthlyData): Totals {
    Totals(md.totalStudents, md.totalTeacherProfit, md.totalSchoolProfit, md.totalIncome)
  }

  /** The key a record is grouped under, `${year}-${month}` of its date. */
  function RecordKey(r: Record): string {
    FormatKey(r.date.year, r.date.month)
  }

  /** The records whose key is `k`, in input order: the group `push` builds for `k`. */
  function WithKey(records: seq<Record>, key: Record -> string, k: string): (group: seq<Record>)
    ensures |group| <= |records|
  {
    Filter(records, (x: Record) => key(x) == k)
  }

  lemma WithKeyMembers(records: seq<Record>, key: Record -> string, k: string)
    ensures forall x :: x in WithKey(records, key, k) <==> x in records && key(x) == k
  {
  }

  lemma WithKeyNone(records: seq<Record>, key: Record -> string, k: string)
    requires forall x :: x in records ==> key(x) != k
    ensures WithKey(records, key, k) == []
  {
    FilterNone(records, (x: Record) => key(x) == k);
  }

  lemma WithKeySnoc(records: seq<Record>, r: Record, key: Record -> string, k: string)
    ensures WithKey(records + [r], key, k) == WithKey(records, key, k) + (if key(r) == k then [r] else [])
  {
    FilterSnoc(records, r, (x: Record) => key(x) == k);
  }

  /** The records filed under the month key `k`, in input order. */
  function InMonthKey(records: seq<Record>, k: string): (rs: seq<Record>)
    ensures forall x :: x in rs <==> x in records && RecordKey(x) == k
  {
    WithKeyMembers(records, RecordKey, k);
    WithKey(records, RecordKey, k)
  }

  /** The keys of all the records. */
  function KeysOf(records: seq<Record>, key: Record -> string): set<string> {
    set r | r in records :: key(r)
  }

  /** The four sums of each group, added up in key order. */
  function SumOfGroups(keys: seq<string>, groups: map<string, seq<Record>>): Totals
    requires forall k :: k in keys ==> k in groups
  {
    if keys == [] then Zero else Aggregate(groups[keys[0]]).Plus(SumOfGroups(keys[1..], groups))
  }

  /** The four sums of each entry, added up in list order. */
  function SumOfMonths(data: seq<MonthlyData>): Totals {
    if data == [] then Zero else TotalsOf(data[0]).Plus(SumOfMonths(data[1..]))
  }

  /** What the grouping loop has built after visiting `seen`: each key once, one group
      per key holding the records with that key in input order, and the sums of the
      groups together equal to the sums of `seen`. (The order of the keys is not
      stated: the list is sorted afterwards and no two entries share a month.) */
  ghost predicate Grouped(keys: seq<string>, groups: map<string, seq<Record>>, seen: seq<Record>, key: Record -> string) {
    && Distinct(keys)
    && (forall k :: k in keys <==> k in groups)
    && groups.Keys == KeysOf(seen, key)
    && (forall k :: k in groups ==> groups[k] == WithKey(seen, key, k))
    && SumOfGroups(keys, groups) == Aggregate(seen)
  }

  lemma {:induction false} SumOfGroupsSnoc(keys: seq<string>, k: string, groups: map<string, seq<Record>>)
    requires forall k' :: k' in keys ==> k' in groups
    requires k in groups
    ensures SumOfGroups(keys + [k], groups) == SumOfGroups(keys, groups).Plus(Aggregate(groups[k]))
    decreases |keys|
  {
    if keys == [] {
      assert [] + [k] == [k];
      assert [k][1..] == [];
    } else {
      assert (keys + [k])[1..] == keys[1..] + [k];
      SumOfGroupsSnoc(keys[1..], k, groups);
    }
  }

  lemma {:induction false} SumOfGroupsOther(keys: seq<string>, groups: map<string, seq<Record>>, k: string, g: seq<Record>)
    requires forall k' :: k' in keys ==> k' in groups
    requires k !in keys
    ensures SumOfGroups(keys, groups[k := g]) == SumOfGroups(keys, groups)
    decreases |keys|
  {
    if keys != [] {
      SumOfGroupsOther(keys[1..], groups, k, g);
    }
  }

  /** Appending a record to the first key's group, which no later key repeats. */
  lemma SumOfGroupsBumpHead(keys: seq<string>, groups: map<string, seq<Record>>, r: Record)
    requires forall k' :: k' in keys ==> k' in groups
    requires keys != [] && keys[0] !in keys[1..]
    ensures SumOfGroups(keys, groups[keys[0] := groups[keys[0]] + [r]]) == SumOfGroups(keys, groups).Add(r)
  {
    var k, rest := keys[0], keys[1..];
    var bumped := groups[k := groups[k] + [r]];
    assert forall k' :: k' in rest ==> k' in keys;
    var head, tail := Aggregate(groups[k]), SumOfGroups(rest, groups);
    SumOfGroupsOther(rest, groups, k, groups[k] + [r]);
    AggregateSnoc(groups[k], r);
    assert SumOfGroups(keys, bumped) == Aggregate(groups[k] + [r]).Plus(SumOfGroups(rest, bumped));
    assert SumOfGroups(keys, bumped) == head.Add(r).Plus(tail);
  }

  /** Appending a record to one group adds it to the sum once. */
  lemma {:induction false} SumOfGroupsBump(keys: seq<string>, groups: map<string, seq<Record>>, k: string, r: Record)
    requires forall k' :: k' in keys ==> k' in groups
    requires Distinct(keys) && k in keys
    ensures SumOfGroups(keys, groups[k := groups[k] + [r]]) == SumOfGroups(keys, groups).Add(r)
    decreases |keys|
  {
    var rest := keys[1..];
    if keys[0] == k {
      assert k !in rest by {
        forall j | 0 <= j < |rest| ensures rest[j] != k {
          assert keys[j + 1] != keys[0];
        }
      }
      SumOfGroupsBumpHead(keys, groups, r);
    } else {
      var bumped := groups[k := groups[k] + [r]];
      assert forall k' :: k' in rest ==> k' in keys;
      var head, tail := Aggregate(groups[keys[0]]), SumOfGroups(rest, groups);
      assert Distinct(rest) by {
        forall i, j | 0 <= i < j < |rest| ensures rest[i] != rest[j] {
          assert keys[i + 1] != keys[j + 1];
        }
      }
      assert bumped[keys[0]] == groups[keys[0]];
      SumOfGroupsBump(rest, groups, k, r);
      assert SumOfGroups(keys, bumped) == head.Plus(tail.Add(r));
      AddAfterPlus(head, tail, r);
    }
  }

  /** The keys and groups after one more record: the group of its key grows by it,
      or a new group holding just it is opened under a new key. */
  predicate GroupStepped(keys: seq<string>, groups: map<string, seq<Record>>, r: Record, key: Record -> string,
                         keys': seq<string>, groups': map<string, seq<Record>>) {
    var k := key(r);
    if k in groups then keys' == keys && groups' == groups[k := groups[k] + [r]]
    else keys' == keys + [k] && groups' == groups[k := [r]]
  }

  lemma GroupStepKeys(keys: seq<string>, groups: map<string, seq<Record>>, r: Record, key: Record -> string,
                      keys': seq<string>, groups': map<string, seq<Record>>)
    requires Distinct(keys) && (forall k' :: k' in keys <==> k' in groups)
    requires GroupStepped(keys, groups, r, key, keys', groups')
    ensures Distinct(keys')
    ensures forall k' :: k' in keys' <==> k' in groups'
  {
  }

  lemma GroupStepKeySet(groups: map<string, seq<Record>>, seen: seq<Record>, r: Record, key: Record -> string,
                        groups': map<string, seq<Record>>)
    requires groups.Keys == KeysOf(seen, key)
    requires groups'.Keys == groups.Keys + {key(r)}
    ensures groups'.Keys == KeysOf(seen + [r], key)
  {
    assert KeysOf(seen + [r], key) == KeysOf(seen, key) + {key(r)};
  }

  lemma GroupStepContents(groups: map<string, seq<Record>>, seen: seq<Record>, r: Record, key: Record -> string,
                          groups': map<string, seq<Record>>)
    requires groups.Keys == KeysOf(seen, key)
    requires forall k :: k in groups ==> groups[k] == WithKey(seen, key, k)
    requires groups' == groups[key(r) := (if key(r) in groups then groups[key(r)] else []) + [r]]
    ensures forall k' :: k' in groups' ==> groups'[k'] == WithKey(seen + [r], key, k')
  {
    var k := key(r);
    forall k' | k' in groups' ensures groups'[k'] == WithKey(seen + [r], key, k') {
      WithKeySnoc(seen, r, key, k');
      if k' == k && k !in groups {
        assert forall x :: x in seen ==> key(x) in KeysOf(seen, key);
        WithKeyNone(seen, key, k);
      }
    }
  }

  lemma GroupStepShape(keys: seq<string>, groups: map<string, seq<Record>>, seen: seq<Record>, r: Record,
                       key: Record -> string, keys': seq<string>, groups': map<string, seq<Record>>)
    requires Distinct(keys) && (forall k' :: k' in keys <==> k' in groups)
    requires groups.Keys == KeysOf(seen, key)
    requires forall k :: k in groups ==> groups[k] == WithKey(seen, key, k)
    requires GroupStepped(keys, groups, r, key, keys', groups')
    ensures Distinct(keys') && (forall k' :: k' in keys' <==> k' in groups')
    ensures groups'.Keys == KeysOf(seen + [r], key)
    ensures forall k' :: k' in groups' ==> groups'[k'] == WithKey(seen + [r], key, k')
  {
    var k := key(r);
    assert groups' == groups[k := (if k in groups then groups[k] else []) + [r]] by {
      if k !in groups {
        assert [] + [r] == [r];
      }
    }
    GroupStepKeys(keys, groups, r, key, keys', groups');
    assert groups'.Keys == groups.Keys + {k};
    GroupStepKeySet(groups, seen, r, key, groups');
    GroupStepContents(groups, seen, r, key, groups');
  }

  /** The running sums after a record whose key was seen before. */
  lemma GroupStepSumOld(keys: seq<string>, groups: map<string, seq<Record>>, seen: seq<Record>, r: Record, k: string)
    requires forall k' :: k' in keys ==> k' in groups
    requires Distinct(keys) && k in keys
    requires SumOfGroups(keys, groups) == Aggregate(seen)
    ensures SumOfGroups(keys, groups[k := groups[k] + [r]]) == Aggregate(seen + [r])
  {
    AggregateSnoc(seen, r);
    SumOfGroupsBump(keys, groups, k, r);
  }

  /** The running sums after a record with a new key. */
  lemma GroupStepSumNew(keys: seq<string>, groups: map<string, seq<Record>>, seen: seq<Record>, r: Record, k: string)
    requires forall k' :: k' in keys ==> k' in groups
    requires k !in keys
    requires SumOfGroups(keys, groups) == Aggregate(seen)
    ensures SumOfGroups(keys + [k], groups[k := [r]]) == Aggregate(seen + [r])
  {
    var groups' := groups[k := [r]];
    AggregateSnoc(seen, r);
    SumOfGroupsOther(keys, groups, k, [r]);
    SumOfGroupsSnoc(keys, k, groups');
    AggregateSingleton(r);
  }

  lemma GroupStepSum(keys: seq<string>, groups: map<string, seq<Record>>, seen: seq<Record>, r: Record,
                     key: Record -> string, keys': seq<string>, groups': map<string, seq<Record>>)
    requires Grouped(keys, groups, seen, key)
    requires GroupStepped(keys, groups, r, key, keys', groups')
    ensures forall k' :: k' in keys' ==> k' in groups'
    ensures SumOfGroups(keys', groups') == Aggregate(seen + [r])
  {
    if key(r) in groups {
      GroupStepSumOld(keys, groups, seen, r, key(r));
    } else {
      GroupStepSumNew(keys, groups, seen, r, key(r));
    }
  }

  /** One turn of the grouping loop keeps its invariant. */
  lemma GroupStep(keys: seq<string>, groups: map<string, seq<Record>>, seen: seq<Record>, r: Record,
                  key: Record -> string, keys': seq<string>, groups': map<string, seq<Record>>)
    requires Grouped(keys, groups, seen, key)
    requires GroupStepped(keys, groups, r, key, keys', groups')
    ensures Grouped(keys', groups', seen + [r], key)
  {
    GroupStepShape(keys, groups, seen, r, key, keys', groups');
    GroupStepSum(keys, groups, seen, r, key, keys', groups');
  }

  lemma GroupedEmpty(key: Record -> string)
    ensures Grouped([], map[], [], key)
  {
    assert KeysOf([], key) == {};
  }

  /** The grouping loop of `loadMonthlyData`, a `Map` filled by `forEach` with
      `if (!has) set(k, []); get(k).push(record)`; `keys` is the map's insertion
      order. The key function is `RecordKey` there. */
  method GroupBy(records: seq<Record>, key: Record -> string)
    returns (keys: seq<string>, groups: map<string, seq<Record>>)
    ensures Grouped(keys, groups, records, key)
  {
    keys, groups := [], map[];
    GroupedEmpty(key);
    ghost var seen: seq<Record> := [];
    var i := 0;
    while i < |records|
      invariant 0 <= i <= |records|
      invariant seen == records[..i]
      invariant Grouped(keys, groups, seen, key)
    {
      var r := records[i];
      assert records[..i + 1] == seen + [r];
      var k := key(r);
      ghost var keys0, groups0 := keys, groups;
      if k !in groups {
        keys := keys + [k];
        groups := groups[k := []];
      }
      groups := groups[k := groups[k] + [r]];
      assert GroupStepped(keys0, groups0, r, key, keys, groups) by {
        assert k in groups0 ==> groups == groups0[k := groups0[k] + [r]];
        if k !in groups0 {
          assert [] + [r] == [r];
          assert groups == groups0[k := [r]];
        }
      }
      GroupStep(keys0, groups0, seen, r, key, keys, groups);
      seen := seen + [r];
      i := i + 1;
    }
    assert records[..i] == records;
  }

  /** Every record is filed under its own key and under no other, and no group is empty. */
  lemma GroupingPartitions(keys: seq<string>, groups: map<string, seq<Record>>, records: seq<Record>, key: Record -> string)
    requires Grouped(keys, groups, records, key)
    ensures forall r :: r in records ==> key(r) in keys
    ensures forall r, k :: r in records && k in groups ==> (r in groups[k] <==> k == key(r))
    ensures forall k :: k in groups ==> groups[k] != []
  {
    forall k | k in groups ensures groups[k] != [] && forall r :: r in groups[k] <==> r in records && key(r) == k {
      WithKeyMembers(records, key, k);
      var r :| r in records && key(r) == k;
      assert r in groups[k];
    }
    forall r | r in records ensures key(r) in keys {
      assert key(r) in KeysOf(records, key);
    }
  }

  /** Reading a grouping key back gives the month of its records. */
  lemma KeyOfGroup(records: seq<Record>, k: string)
    requires k in KeysOf(records, RecordKey)
    ensures ParseKey(k).Some?
    ensures FormatKey(ParseKey(k).value.0, ParseKey(k).value.1) == k
  {
    var r :| r in records && RecordKey(r) == k;
    ParseFormatRoundTrip(r.date.year, r.date.month);
  }

  /** The records of the month (y, m) are exactly those dated in that month. */
  lemma InMonthKeyExact(records: seq<Record>, y: nat, m: nat)
    ensures forall x :: x in InMonthKey(records, FormatKey(y, m))
                        <==> x in records && x.date.year == y && x.date.month == m
  {
    forall x | x in records {
      FormatKeyInjective(x.date.year, x.date.month, y, m);
    }
  }

  /** `archivedSet`: the keys of the user's archives. */
  function ArchivedKeys(archives: seq<Archive>): (keys: set<string>)
    ensures forall a :: a in archives ==> FormatKey(a.year, a.month) in keys
    ensures forall k :: k in keys ==> ParseKey(k).Some?
  {
    forall a | a in archives ensures ParseKey(FormatKey(a.year, a.month)).Some? {
      ParseFormatRoundTrip(a.year, a.month);
    }
    set a | a in archives :: FormatKey(a.year, a.month)
  }

  /** A month's key is among the archived keys iff an archive of that month exists. */
  lemma ArchivedKeysExact(archives: seq<Archive>, y: nat, m: nat)
    ensures FormatKey(y, m) in ArchivedKeys(archives)
            <==> exists a :: a in archives && a.year == y && a.month == m
  {
    if FormatKey(y, m) in ArchivedKeys(archives) {
      var a :| a in archives && FormatKey(a.year, a.month) == FormatKey(y, m);
      FormatKeyInjective(a.year, a.month, y, m);
    }
  }

  /** One map entry turned into a list entry (`map(([monthKey, records]) => ...)`). */
  function ToMonthlyData(key: string, records: seq<Record>, archived: set<string>): (md: MonthlyData)
    requires ParseKey(key).Some?
    ensures ParseKey(key) == Some((md.year, md.month))
    ensures md.records == records && TotalsOf(md) == Aggregate(records)
    ensures md.isArchived <==> key in archived
  {
    var ym := ParseKey(key).value;
    var t := Aggregate(records);
    MonthlyData(ym.1, ym.0, records, t.students, t.teacherProfit, t.schoolProfit, t.income, key in archived)
  }

  predicate WellKeyed(keys: seq<string>, groups: map<string, seq<Record>>) {
    forall k :: k in keys ==> k in groups && ParseKey(k).Some?
  }

  function BuildMonthlyData(keys: seq<string>, groups: map<string, seq<Record>>, archived: set<string>): (data: seq<MonthlyData>)
    requires WellKeyed(keys, groups)
    ensures |data| == |keys|
    ensures forall i :: 0 <= i < |keys| ==>
              && ParseKey(keys[i]) == Some((data[i].year, data[i].month))
              && data[i].records == groups[keys[i]]
              && TotalsOf(data[i]) == Aggregate(groups[keys[i]])
              && (data[i].isArchived <==> keys[i] in archived)
  {
    seq(|keys|, i requires 0 <= i < |keys| => ToMonthlyData(keys[i], groups[keys[i]], archived))
  }

  /** What one list entry says about the user's records and archives: it holds that
      month's records in input order, never none, their four sums, and the archived
      flag exactly when an archive of that month exists. */
  predicate IsMonthOf(md: MonthlyData, records: seq<Record>, archives: seq<Archive>) {
    && md.records == InMonthKey(records, FormatKey(md.year, md.month))
    && md.records != []
    && TotalsOf(md) == Aggregate(md.records)
    && (md.isArchived <==> exists a :: a in archives && a.year == md.year && a.month == md.month)
  }

  /** The loaded month list: newest first, one entry per month, every entry true to
      the data, and every record's month listed. */
  predicate MonthlyView(data: seq<MonthlyData>, records: seq<Record>, archives: seq<Archive>) {
    && SortedNewestFirst(data, YearMonth)
    && KeysDistinct(data, YearMonth)
    && (forall md :: md in data ==> IsMonthOf(md, records, archives))
    && (forall r :: r in records ==>
          exists md :: md in data && md.year == r.date.year && md.month == r.date.month)
  }

  lemma BuiltEntries(records: seq<Record>, archives: seq<Archive>, keys: seq<string>, groups: map<string, seq<Record>>)
    requires Grouped(keys, groups, records, RecordKey)
    ensures WellKeyed(keys, groups)
    ensures var data := BuildMonthlyData(keys, groups, ArchivedKeys(archives));
            forall i :: 0 <= i < |data| ==>
              FormatKey(data[i].year, data[i].month) == keys[i] && IsMonthOf(data[i], records, archives)
  {
    forall k | k in keys ensures ParseKey(k).Some? {
      KeyOfGroup(records, k);
    }
    var data := BuildMonthlyData(keys, groups, ArchivedKeys(archives));
    forall i | 0 <= i < |data|
      ensures FormatKey(data[i].year, data[i].month) == keys[i] && IsMonthOf(data[i], records, archives)
    {
      var k := keys[i];
      KeyOfGroup(records, k);
      var r :| r in records && RecordKey(r) == k;
      assert r in InMonthKey(records, k);
      ArchivedKeysExact(archives, data[i].year, data[i].month);
    }
  }

  lemma BuiltDistinctCovering(records: seq<Record>, archives: seq<Archive>, keys: seq<string>, groups: map<string, seq<Record>>)
    requires Grouped(keys, groups, records, RecordKey)
    ensures WellKeyed(keys, groups)
    ensures var data := BuildMonthlyData(keys, groups, ArchivedKeys(archives));
            && KeysDistinct(data, YearMonth)
            && (forall r :: r in records ==>
                  exists md :: md in data && md.year == r.date.year && md.month == r.date.month)
  {
    BuiltEntries(records, archives, keys, groups);
    var data := BuildMonthlyData(keys, groups, ArchivedKeys(archives));
    forall i, j | 0 <= i < j < |data| ensures YearMonth(data[i]) != YearMonth(data[j]) {
      assert keys[i] != keys[j];
    }
    forall r | r in records
      ensures exists md :: md in data && md.year == r.date.year && md.month == r.date.month
    {
      var k := RecordKey(r);
      assert k in KeysOf(records, RecordKey);
      var i :| 0 <= i < |keys| && keys[i] == k;
      FormatKeyInjective(data[i].year, data[i].month, r.date.year, r.date.month);
      assert data[i] in data;
    }
  }

  /** Grouping, converting and sorting give the month list its meaning. */
  lemma BuildIsMonthlyView(records: seq<Record>, archives: seq<Archive>, keys: seq<string>, groups: map<string, seq<Record>>)
    requires Grouped(keys, groups, records, RecordKey)
    ensures WellKeyed(keys, groups)
    ensures MonthlyView(SortNewestFirst(BuildMonthlyData(keys, groups, ArchivedKeys(archives)), YearMonth),
                        records, archives)
  {
    BuiltEntries(records, archives, keys, groups);
    BuiltDistinctCovering(records, archives, keys, groups);
    var data := BuildMonthlyData(keys, groups, ArchivedKeys(archives));
    var sorted := SortNewestFirst(data, YearMonth);
    SortKeepsKeysDistinct(data, YearMonth);
    forall md | md in sorted ensures md in data {
      assert md in multiset(sorted);
    }
    forall md | md in data ensures md in sorted {
      assert md in multiset(data);
    }
  }

  /** Each of the user's records appears under exactly one list entry, its own month's. */
  lemma MonthlyViewPartitions(data: seq<MonthlyData>, records: seq<Record>, archives: seq<Archive>, r: Record)
    requires MonthlyView(data, records, archives)
    requires r in records
    ensures exists i :: 0 <= i < |data| && r in data[i].records
    ensures forall i :: 0 <= i < |data| ==>
              (r in data[i].records <==> data[i].year == r.date.year && data[i].month == r.date.month)
    ensures forall i, j :: 0 <= i < |data| && 0 <= j < |data| && r in data[i].records && r in data[j].records ==> i == j
  {
    forall i | 0 <= i < |data|
      ensures r in data[i].records <==> data[i].year == r.date.year && data[i].month == r.date.month
    {
      assert data[i] in data;
      InMonthKeyExact(records, data[i].year, data[i].month);
    }
    var md :| md in data && md.year == r.date.year && md.month == r.date.month;
    var i :| 0 <= i < |data| && data[i] == md;
    assert r in data[i].records;
  }

  lemma {:induction false} BuildSum(keys: seq<string>, groups: map<string, seq<Record>>, archived: set<string>)
    requires WellKeyed(keys, groups)
    ensures SumOfMonths(BuildMonthlyData(keys, groups, archived)) == SumOfGroups(keys, groups)
    decreases |keys|
  {
    if keys != [] {
      assert BuildMonthlyData(keys, groups, archived)[1..] == BuildMonthlyData(keys[1..], groups, archived);
      BuildSum(keys[1..], groups, archived);
    }
  }

  lemma {:induction false} InsertSum(x: MonthlyData, s: seq<MonthlyData>)
    requires SortedNewestFirst(s, YearMonth)
    ensures SumOfMonths(InsertNewestFirst(x, s, YearMonth)) == TotalsOf(x).Plus(SumOfMonths(s))
    decreases |s|
  {
    if s != [] && !NewerOrSame(YearMonth(x), YearMonth(s[0])) {
      InsertSum(x, s[1..]);
      var r := InsertNewestFirst(x, s, YearMonth);
      assert r[1..] == InsertNewestFirst(x, s[1..], YearMonth);
    }
  }

  /** Reordering the list does not change its grand total. */
  lemma {:induction false} SortSum(s: seq<MonthlyData>)
    ensures SumOfMonths(SortNewestFirst(s, YearMonth)) == SumOfMonths(s)
    decreases |s|
  {
    if s != [] {
      SortSum(s[1..]);
      InsertSum(s[0], SortNewestFirst(s[1..], YearMonth));
    }
  }

  /** The list `loadMonthlyData` stores is the month list of the records, and its grand
      total is the total of all the records. */
  lemma LoadedList(records: seq<Record>, archives: seq<Archive>, keys: seq<string>, groups: map<string, seq<Record>>)
    requires Grouped(keys, groups, records, RecordKey)
    ensures WellKeyed(keys, groups)
    ensures var list := SortNewestFirst(BuildMonthlyData(keys, groups, ArchivedKeys(archives)), YearMonth);
            MonthlyView(list, records, archives) && SumOfMonths(list) == Aggregate(records)
  {
    BuildIsMonthlyView(records, archives, keys, groups);
    var data := BuildMonthlyData(keys, groups, ArchivedKeys(archives));
    BuildSum(keys, groups, ArchivedKeys(archives));
    SortSum(data);
  }

  /** The entry for (year, month) that `monthlyData.find(...)` returns; a key that
      did not parse matches nothing. */
  function FindMonth(data: seq<MonthlyData>, ym: Option<(nat, nat)>): (r: Option<MonthlyData>)
    ensures r.Some? ==> r.value in data && ym.Some? && r.value.year == ym.value.0 && r.value.month == ym.value.1
    ensures r.None? && ym.Some? ==> forall md :: md in data ==> !(md.year == ym.value.0 && md.month == ym.value.1)
  {
    if ym.None? || data == [] then None
    else if data[0].year == ym.value.0 && data[0].month == ym.value.1 then Some(data[0])
    else FindMonth(data[1..], ym)
  }

  /** `find` returns the first matching entry: no entry before it has that year and
      month. */
  lemma {:induction false} FindMonthFirst(data: seq<MonthlyData>, ym: Option<(nat, nat)>)
    requires FindMonth(data, ym).Some?
    ensures exists i :: 0 <= i < |data| && data[i] == FindMonth(data, ym).value
                        && forall j :: 0 <= j < i ==> !(data[j].year == ym.value.0 && data[j].month == ym.value.1)
    decreases |data|
  {
    var r := FindMonth(data, ym);
    if data[0].year == ym.value.0 && data[0].month == ym.value.1 {
      assert data[0] == r.value;
    } else {
      assert r == FindMonth(data[1..], ym);
      FindMonthFirst(data[1..], ym);
      var i :| 0 <= i < |data| - 1 && data[1..][i] == r.value
               && forall j :: 0 <= j < i ==> !(data[1..][j].year == ym.value.0 && data[1..][j].month == ym.value.1);
      assert forall j :: 1 <= j < i + 1 ==> data[j] == data[1..][j - 1];
      assert data[i + 1] == r.value;
    }
  }

  /** In a list with one entry per month, `find` returns the entry of that month. */
  lemma FindMonthUnique(data: seq<MonthlyData>, md: MonthlyData)
    requires KeysDistinct(data, YearMonth)
    requires md in data
    ensures FindMonth(data, Some((md.year, md.month))) == Some(md)
  {
    var ym := Some((md.year, md.month));
    var r := FindMonth(data, ym);
    FindMonthFirst(data, ym);
    var k :| 0 <= k < |data| && data[k] == md;
    var i :| 0 <= i < |data| && data[i] == r.value
             && forall j :: 0 <= j < i ==> !(data[j].year == md.year && data[j].month == md.month);
    assert k >= i;
    assert YearMonth(data[i]) == (md.year, md.month) == YearMonth(data[k]);
    assert i == k;
  }

  /** The row the batch loop inserts for a month. */
  function MonthArchive(md: MonthlyData, user: UserId, id: string, now: string): (a: Archive)
    ensures IsFor(a, user, md.month, md.year) && a.recordsData == md.records
    ensures Totals(a.totalStudents, a.totalTeacherProfit, a.totalSchoolProfit, a.totalIncome) == TotalsOf(md)
    ensures a.id == id && a.createdAt == now
  {
    Archive(id, user, md.month, md.year, md.totalStudents, md.totalTeacherProfit,
            md.totalSchoolProfit, md.totalIncome, md.records, now)
  }

  /** An archive built from a true list entry stores exactly that month's records, and
      its totals are their sums. */
  lemma MonthArchiveIsTheMonth(md: MonthlyData, records: seq<Record>, archives: seq<Archive>, user: UserId, id: string, now: string)
    requires IsMonthOf(md, records, archives)
    ensures var a := MonthArchive(md, user, id, now);
            && IsFor(a, user, md.month, md.year)
            && (forall x :: x in a.recordsData <==> x in records && x.date.year == a.year && x.date.month == a.month)
            && Totals(a.totalStudents, a.totalTeacherProfit, a.totalSchoolProfit, a.totalIncome) == Aggregate(a.recordsData)
  {
    InMonthKeyExact(records, md.year, md.month);
  }

  /** The result of the batch loop: the store, how many months it archived, and
      whether an insert error aborted it. */
  datatype BatchRun = BatchRun(db: Db, count: nat, failed: bool)

  /** The `for (const monthKey of ...)` loop over the remaining keys, `count` months
      archived so far. Which existence checks fail (their error is ignored), which
      inserts fail, and the ids the backend assigns are parameters. */
  function RunBatch(keys: seq<string>, data: seq<MonthlyData>, user: UserId, db: Db,
                    checkFails: set<string>, insertFails: set<string>,
                    idFor: string -> string, now: string, count: nat): (run: BatchRun)
    ensures count <= run.count <= count + |keys|
    ensures run.failed ==> exists k :: k in keys && k in insertFails
    decreases |keys|
  {
    if keys == [] then BatchRun(db, count, false)
    else
      var k := keys[0];
      var md := FindMonth(data, ParseKey(k));
      if md.None? || md.value.isArchived then
        RunBatch(keys[1..], data, user, db, checkFails, insertFails, idFor, now, count)
      else if ExistingArchive(db, user, md.value.month, md.value.year, k in checkFails).Some? then
        RunBatch(keys[1..], data, user, db, checkFails, insertFails, idFor, now, count)
      else if k in insertFails then
        BatchRun(db, count, true)
      else
        RunBatch(keys[1..], data, user, InsertArchive(db, MonthArchive(md.value, user, idFor(k), now)),
                 checkFails, insertFails, idFor, now, count + 1)
  }

  /** The batch path never touches the records table. */
  lemma {:induction false} BatchKeepsRecords(keys: seq<string>, data: seq<MonthlyData>, user: UserId, db: Db,
                                             checkFails: set<string>, insertFails: set<string>,
                                             idFor: string -> string, now: string, count: nat)
    ensures RunBatch(keys, data, user, db, checkFails, insertFails, idFor, now, count).db.records == db.records
    decreases |keys|
  {
    if keys != [] {
      var k := keys[0];
      var md := FindMonth(data, ParseKey(k));
      if md.Some? && !md.value.isArchived {
        BatchKeepsRecords(keys[1..], data, user, InsertArchive(db, MonthArchive(md.value, user, idFor(k), now)),
                          checkFails, insertFails, idFor, now, count + 1);
      }
      BatchKeepsRecords(keys[1..], data, user, db, checkFails, insertFails, idFor, now, count);
    }
  }

  /** The count reported is the number of archives appended, and the archives that
      were there stay as they were. */
  lemma {:induction false} BatchCountsInserts(keys: seq<string>, data: seq<MonthlyData>, user: UserId, db: Db,
                                              checkFails: set<string>, insertFails: set<string>,
                                              idFor: string -> string, now: string, count: nat)
    ensures var run := RunBatch(keys, data, user, db, checkFails, insertFails, idFor, now, count);
            && run.count >= count
            && |run.db.archives| == |db.archives| + (run.count - count)
            && run.db.archives[..|db.archives|] == db.archives
    decreases |keys|
  {
    if keys != [] {
      var k := keys[0];
      var md := FindMonth(data, ParseKey(k));
      if md.Some? && !md.value.isArchived {
        var db1 := InsertArchive(db, MonthArchive(md.value, user, idFor(k), now));
        BatchCountsInserts(keys[1..], data, user, db1, checkFails, insertFails, idFor, now, count + 1);
        var run1 := RunBatch(keys[1..], data, user, db1, checkFails, insertFails, idFor, now, count + 1);
        assert run1.db.archives[..|db.archives|] == run1.db.archives[..|db1.archives|][..|db.archives|];
      }
      BatchCountsInserts(keys[1..], data, user, db, checkFails, insertFails, idFor, now, count);
    }
  }

  /** An entry the batch path archives from: not flagged as archived, and the
      archive copies its month, records and sums for the user. */
  predicate ArchiveOfMonth(a: Archive, md: MonthlyData, user: UserId) {
    && !md.isArchived
    && IsFor(a, user, md.month, md.year)
    && a.recordsData == md.records
    && a.totalStudents == md.totalStudents
    && a.totalTeacherProfit == md.totalTeacherProfit
    && a.totalSchoolProfit == md.totalSchoolProfit
    && a.totalIncome == md.totalIncome
  }

  /** Every archive the batch path adds copies an unflagged entry of the list. */
  lemma {:induction false} BatchArchivesListedMonths(keys: seq<string>, data: seq<MonthlyData>, user: UserId, db: Db,
                                                     checkFails: set<string>, insertFails: set<string>,
                                                     idFor: string -> string, now: string, count: nat)
    ensures var run := RunBatch(keys, data, user, db, checkFails, insertFails, idFor, now, count);
            forall a :: a in run.db.archives && a !in db.archives ==>
              && (exists md :: md in data && ArchiveOfMonth(a, md, user))
              && (exists k :: k in keys && ParseKey(k) == Some((a.year, a.month)))
    decreases |keys|
  {
    if keys != [] {
      var k := keys[0];
      var md := FindMonth(data, ParseKey(k));
      var run := RunBatch(keys, data, user, db, checkFails, insertFails, idFor, now, count);
      if md.Some? && !md.value.isArchived
         && ExistingArchive(db, user, md.value.month, md.value.year, k in checkFails).None? && k !in insertFails {
        var a := MonthArchive(md.value, user, idFor(k), now);
        var db1 := InsertArchive(db, a);
        BatchArchivesListedMonths(keys[1..], data, user, db1, checkFails, insertFails, idFor, now, count + 1);
        assert ArchiveOfMonth(a, md.value, user);
        assert run == RunBatch(keys[1..], data, user, db1, checkFails, insertFails, idFor, now, count + 1);
        forall b | b in run.db.archives && b !in db.archives
          ensures exists md' :: md' in data && ArchiveOfMonth(b, md', user)
          ensures exists k' :: k' in keys && ParseKey(k') == Some((b.year, b.month))
        {
          if b == a {
            assert md.value in data;
            assert k in keys && ParseKey(k) == Some((b.year, b.month));
          } else {
            assert b !in db1.archives;
            var k' :| k' in keys[1..] && ParseKey(k') == Some((b.year, b.month));
            assert k' in keys;
          }
        }
      } else if !(md.Some? && !md.value.isArchived
                  && ExistingArchive(db, user, md.value.month, md.value.year, k in checkFails).None?) {
        BatchArchivesListedMonths(keys[1..], data, user, db, checkFails, insertFails, idFor, now, count);
        forall b | b in run.db.archives && b !in db.archives
          ensures exists k' :: k' in keys && ParseKey(k') == Some((b.year, b.month))
        {
          var k' :| k' in keys[1..] && ParseKey(k') == Some((b.year, b.month));
          assert k' in keys;
        }
      }
    }
  }

  /** The archives already stored survive the batch. */
  lemma BatchKeepsArchives(keys: seq<string>, data: seq<MonthlyData>, user: UserId, db: Db,
                           checkFails: set<string>, insertFails: set<string>,
                           idFor: string -> string, now: string, count: nat)
    ensures forall a :: a in db.archives ==>
              a in RunBatch(keys, data, user, db, checkFails, insertFails, idFor, now, count).db.archives
  {
    var run := RunBatch(keys, data, user, db, checkFails, insertFails, idFor, now, count);
    BatchCountsInserts(keys, data, user, db, checkFails, insertFails, idFor, now, count);
    forall a | a in db.archives ensures a in run.db.archives {
      var i :| 0 <= i < |db.archives| && db.archives[i] == a;
      assert run.db.archives[..|db.archives|][i] == a;
    }
  }

  /** Without an insert error on any selected key the loop runs to the end. */
  lemma {:induction false} BatchRunsThrough(keys: seq<string>, data: seq<MonthlyData>, user: UserId, db: Db,
                                            checkFails: set<string>, insertFails: set<string>,
                                            idFor: string -> string, now: string, count: nat)
    requires forall k :: k in keys ==> k !in insertFails
    ensures !RunBatch(keys, data, user, db, checkFails, insertFails, idFor, now, count).failed
    decreases |keys|
  {
    if keys != [] {
      var k := keys[0];
      var md := FindMonth(data, ParseKey(k));
      assert forall k' :: k' in keys[1..] ==> k' in keys;
      if md.Some? && !md.value.isArchived {
        BatchRunsThrough(keys[1..], data, user, InsertArchive(db, MonthArchive(md.value, user, idFor(k), now)),
                         checkFails, insertFails, idFor, now, count + 1);
      }
      BatchRunsThrough(keys[1..], data, user, db, checkFails, insertFails, idFor, now, count);
    }
  }

  /** A selected key whose month is listed and not flagged as archived. */
  predicate Eligible(k: string, data: seq<MonthlyData>) {
    FindMonth(data, ParseKey(k)).Some? && !FindMonth(data, ParseKey(k)).value.isArchived
  }

  predicate HasArchive(archives: seq<Archive>, user: UserId, md: MonthlyData) {
    exists a :: a in archives && IsFor(a, user, md.month, md.year)
  }

  /** A batch that runs through leaves every eligible selected month archived for the
      user: either the existence check found its archive, or the loop inserted one. */
  lemma {:induction false} BatchCoversSelected(keys: seq<string>, data: seq<MonthlyData>, user: UserId, db: Db,
                                               checkFails: set<string>, insertFails: set<string>,
                                               idFor: string -> string, now: string, count: nat)
    requires !RunBatch(keys, data, user, db, checkFails, insertFails, idFor, now, count).failed
    ensures var run := RunBatch(keys, data, user, db, checkFails, insertFails, idFor, now, count);
            forall k :: k in keys && Eligible(k, data) ==>
              HasArchive(run.db.archives, user, FindMonth(data, ParseKey(k)).value)
    decreases |keys|
  {
    if keys != [] {
      var k := keys[0];
      var md := FindMonth(data, ParseKey(k));
      var run := RunBatch(keys, data, user, db, checkFails, insertFails, idFor, now, count);
      var db1 := db;
      var count1 := count;
      if md.Some? && !md.value.isArchived
         && ExistingArchive(db, user, md.value.month, md.value.year, k in checkFails).None? {
        assert k !in insertFails;
        var a := MonthArchive(md.value, user, idFor(k), now);
        db1 := InsertArchive(db, a);
        count1 := count + 1;
        assert a in db1.archives;
      } else if md.Some? && !md.value.isArchived {
        var e := ExistingArchive(db, user, md.value.month, md.value.year, k in checkFails).value;
        assert e in db1.archives;
      }
      assert run == RunBatch(keys[1..], data, user, db1, checkFails, insertFails, idFor, now, count1);
      BatchCoversSelected(keys[1..], data, user, db1, checkFails, insertFails, idFor, now, count1);
      BatchKeepsArchives(keys[1..], data, user, db1, checkFails, insertFails, idFor, now, count1);
      forall k' | k' in keys && Eligible(k', data)
        ensures HasArchive(run.db.archives, user, FindMonth(data, ParseKey(k')).value)
      {
        if k' == k {
          var md' := md.value;
          var e :| e in db1.archives && IsFor(e, user, md'.month, md'.year);
          assert e in run.db.archives;
        } else {
          assert k' in keys[1..];
        }
      }
    }
  }

  /** In a list with one entry per month, selecting a month by its own key reaches
      that entry: after a batch that runs through, every selected month that was
      listed and not flagged has an archive for the user. */
  lemma SelectedMonthsArchived(keys: seq<string>, data: seq<MonthlyData>, user: UserId, db: Db,
                               checkFails: set<string>, insertFails: set<string>,
                               idFor: string -> string, now: string, count: nat)
    requires KeysDistinct(data, YearMonth)
    requires !RunBatch(keys, data, user, db, checkFails, insertFails, idFor, now, count).failed
    ensures var run := RunBatch(keys, data, user, db, checkFails, insertFails, idFor, now, count);
            forall md :: md in data && !md.isArchived && FormatKey(md.year, md.month) in keys ==>
              HasArchive(run.db.archives, user, md)
  {
    BatchCoversSelected(keys, data, user, db, checkFails, insertFails, idFor, now, count);
    forall md | md in data && !md.isArchived && FormatKey(md.year, md.month) in keys
      ensures HasArchive(RunBatch(keys, data, user, db, checkFails, insertFails, idFor, now, count).db.archives, user, md)
    {
      var k := FormatKey(md.year, md.month);
      ParseFormatRoundTrip(md.year, md.month);
      FindMonthUnique(data, md);
      assert Eligible(k, data);
    }
  }

  /** With unique keys, no failed existence check and no insert error, every eligible
      selected month ends with exactly one archive for the user. */
  lemma BatchArchivesEachSelectedOnce(keys: seq<string>, data: seq<MonthlyData>, user: UserId, db: Db,
                                      insertFails: set<string>, idFor: string -> string, now: string)
    requires UniqueKeys(db.archives)
    requires forall k :: k in keys ==> k !in insertFails
    ensures var run := RunBatch(keys, data, user, db, {}, insertFails, idFor, now, 0);
            forall k :: k in keys && Eligible(k, data) ==>
              |Matching(run.db.archives, user, FindMonth(data, ParseKey(k)).value.month,
                        FindMonth(data, ParseKey(k)).value.year)| == 1
  {
    var run := RunBatch(keys, data, user, db, {}, insertFails, idFor, now, 0);
    BatchRunsThrough(keys, data, user, db, {}, insertFails, idFor, now, 0);
    BatchCoversSelected(keys, data, user, db, {}, insertFails, idFor, now, 0);
    BatchKeepsKeysUnique(keys, data, user, db, insertFails, idFor, now, 0);
    forall k | k in keys && Eligible(k, data)
      ensures |Matching(run.db.archives, user, FindMonth(data, ParseKey(k)).value.month,
                        FindMonth(data, ParseKey(k)).value.year)| == 1
    {
      var md := FindMonth(data, ParseKey(k)).value;
      UniqueMatchesAtMostOne(run.db.archives, user, md.month, md.year);
      var a :| a in run.db.archives && IsFor(a, user, md.month, md.year);
      assert a in Matching(run.db.archives, user, md.month, md.year);
    }
  }

  /** The guard against double archiving: when no existence check fails, the batch
      path never adds a second archive for a (user, month, year). */
  lemma {:induction false} BatchKeepsKeysUnique(keys: seq<string>, data: seq<MonthlyData>, user: UserId, db: Db,
                                                insertFails: set<string>,
                                                idFor: string -> string, now: string, count: nat)
    requires UniqueKeys(db.archives)
    ensures UniqueKeys(RunBatch(keys, data, user, db, {}, insertFails, idFor, now, count).db.archives)
    decreases |keys|
  {
    if keys != [] {
      var k := keys[0];
      var md := FindMonth(data, ParseKey(k));
      if md.Some? && !md.value.isArchived
         && ExistingArchive(db, user, md.value.month, md.value.year, false).None? && k !in insertFails {
        var a := MonthArchive(md.value, user, idFor(k), now);
        ExistingArchiveExact(db, user, md.value.month, md.value.year);
        InsertKeepsUnique(db, a);
        BatchKeepsKeysUnique(keys[1..], data, user, InsertArchive(db, a), insertFails, idFor, now, count + 1);
      } else {
        BatchKeepsKeysUnique(keys[1..], data, user, db, insertFails, idFor, now, count);
      }
    }
  }

  /** An insert error aborts the loop: the keys after it are never looked at. */
  lemma {:induction false} BatchAbortsOnFailure(keys: seq<string>, more: seq<string>, data: seq<MonthlyData>, user: UserId, db: Db,
                                                checkFails: set<string>, insertFails: set<string>,
                                                idFor: string -> string, now: string, count: nat)
    requires RunBatch(keys, data, user, db, checkFails, insertFails, idFor, now, count).failed
    ensures RunBatch(keys + more, data, user, db, checkFails, insertFails, idFor, now, count)
            == RunBatch(keys, data, user, db, checkFails, insertFails, idFor, now, count)
    decreases |keys|
  {
    assert keys != [];
    assert (keys + more)[0] == keys[0];
    assert (keys + more)[1..] == keys[1..] + more;
    var k := keys[0];
    var md := FindMonth(data, ParseKey(k));
    if md.Some? && !md.value.isArchived
       && ExistingArchive(db, user, md.value.month, md.value.year, k in checkFails).None? {
      if k !in insertFails {
        BatchAbortsOnFailure(keys[1..], more, data, user,
                             InsertArchive(db, MonthArchive(md.value, user, idFor(k), now)),
                             checkFails, insertFails, idFor, now, count + 1);
      }
    } else {
      BatchAbortsOnFailure(keys[1..], more, data, user, db, checkFails, insertFails, idFor, now, count);
    }
  }

  /** The loop of `handleArchiveSelected` over the selected keys, in selection order:
      a key with no list entry or a flagged one is skipped, so is a month the existence
      check finds, and an insert error stops the loop (it is thrown). */
  method ArchiveMonths(keys: seq<string>, data: seq<MonthlyData>, user: UserId, db: Db,
                       checkFails: set<string>, insertFails: set<string>,
                       idFor: string -> string, now: string)
    returns (db': Db, count: nat, failed: bool)
    ensures BatchRun(db', count, failed) == RunBatch(keys, data, user, db, checkFails, insertFails, idFor, now, 0)
  {
    db', count, failed := db, 0, false;
    var i := 0;
    assert keys[0..] == keys;
    while i < |keys|
      invariant 0 <= i <= |keys|
      invariant RunBatch(keys, data, user, db, checkFails, insertFails, idFor, now, 0)
                == RunBatch(keys[i..], data, user, db', checkFails, insertFails, idFor, now, count)
    {
      var k := keys[i];
      RunBatchStep(keys, i, data, user, db', checkFails, insertFails, idFor, now, count);
      var md := FindMonth(data, ParseKey(k));
      if md.None? || md.value.isArchived {
        i := i + 1;
      } else if ExistingArchive(db', user, md.value.month, md.value.year, k in checkFails).Some? {
        i := i + 1;
      } else if k in insertFails {
        failed := true;
        return;
      } else {
        db' := InsertArchive(db', MonthArchive(md.value, user, idFor(k), now));
        count := count + 1;
        i := i + 1;
      }
    }
    assert keys[i..] == [];
  }

  /** One turn of the batch loop, as `RunBatch` takes it. */
  lemma RunBatchStep(keys: seq<string>, i: nat, data: seq<MonthlyData>, user: UserId, db: Db,
                     checkFails: set<string>, insertFails: set<string>,
                     idFor: string -> string, now: string, count: nat)
    requires i < |keys|
    ensures var k := keys[i];
            var md := FindMonth(data, ParseKey(k));
            var run := RunBatch(keys[i..], data, user, db, checkFails, insertFails, idFor, now, count);
            run == (if md.None? || md.value.isArchived then
                      RunBatch(keys[i + 1..], data, user, db, checkFails, insertFails, idFor, now, count)
                    else if ExistingArchive(db, user, md.value.month, md.value.year, k in checkFails).Some? then
                      RunBatch(keys[i + 1..], data, user, db, checkFails, insertFails, idFor, now, count)
                    else if k in insertFails then
                      BatchRun(db, count, true)
                    else
                      RunBatch(keys[i + 1..], data, user, InsertArchive(db, MonthArchive(md.value, user, idFor(k), now)),
                               checkFails, insertFails, idFor, now, count + 1))
  {
    assert keys[i..][0] == keys[i] && keys[i..][1..] == keys[i + 1..];
  }

  /** What `handleArchiveSelected` ends in: the "choose at least one month" error,
      the failure toast (no user, or an insert error), or the success toast with the
      number of months archived. */
  datatype BatchOutcome = NothingSelected | BatchFailed | BatchDone(count: nat)

  /** The body of `loadMonthlyData` once both queries have answered: group the
      records by month, turn each group into an entry, and sort newest first. */
  method MonthList(records: seq<Record>, archives: seq<Archive>) returns (list: seq<MonthlyData>)
    ensures MonthlyView(list, records, archives)
    ensures SumOfMonths(list) == Aggregate(records)
  {
    var keys, groups := GroupBy(records, RecordKey);
    LoadedList(records, archives, keys, groups);
    list := SortNewestFirst(BuildMonthlyData(keys, groups, ArchivedKeys(archives)), YearMonth);
  }

  /** The component's state. `selectedMonths` and `archiving` are JavaScript `Set`s;
      the selection keeps insertion order, which the batch loop follows. */
  class ArchiverState {
    var monthlyData: seq<MonthlyData>
    var loading: bool
    var archiving: set<string>
    var selectedMonths: seq<string>

    /** The selection is a set, and the list has one entry per month, so `find`
        has at most one entry to choose from: selecting a month by its own key
        reaches that entry (`SelectedMonthsArchived`, used by
        `HandleArchiveSelected`). */
    predicate Valid()
      reads this
    {
      Distinct(selectedMonths) && KeysDistinct(monthlyData, YearMonth)
    }

    constructor()
      ensures Valid()
      ensures monthlyData == [] && loading && archiving == {} && selectedMonths == []
    {
      monthlyData := [];
      loading := true;
      archiving := {};
      selectedMonths := [];
    }

    /** `loadMonthlyData`. Without a user nothing is loaded; a failed fetch keeps the
        old list; either way `loading` ends false. */
    method LoadMonthlyData(user: Option<UserId>, db: Db, fetchSucceeds: bool)
      requires Valid()
      modifies this
      ensures Valid() && !loading
      ensures selectedMonths == old(selectedMonths) && archiving == old(archiving)
      ensures user.None? || !fetchSucceeds ==> monthlyData == old(monthlyData)
      ensures user.Some? && fetchSucceeds ==>
        && MonthlyView(monthlyData, RecordsOf(db, user.value), ArchivesOf(db, user.value))
        && SumOfMonths(monthlyData) == Aggregate(RecordsOf(db, user.value))
    {
      loading := true;
      if user.None? || !fetchSucceeds {
        loading := false;
        return;
      }
      monthlyData := MonthList(RecordsOf(db, user.value), ArchivesOf(db, user.value));
      loading := false;
    }

    /** `handleMonthSelection`: adds or removes `key` and leaves every other key as it was. */
    method HandleMonthSelection(key: string, selected: bool)
      requires Valid()
      modifies this
      ensures Valid()
      ensures selected ==>
        selectedMonths == if key in old(selectedMonths) then old(selectedMonths) else old(selectedMonths) + [key]
      ensures !selected ==> selectedMonths == Filter(old(selectedMonths), (k: string) => k != key)
      ensures key in selectedMonths <==> selected
      ensures forall k :: k != key ==> (k in selectedMonths <==> k in old(selectedMonths))
      ensures monthlyData == old(monthlyData) && loading == old(loading) && archiving == old(archiving)
    {
      if selected {
        if key !in selectedMonths {
          selectedMonths := selectedMonths + [key];
        }
      } else {
        FilterKeepsDistinct(selectedMonths, (k: string) => k != key);
        selectedMonths := Filter(selectedMonths, (k: string) => k != key);
      }
    }

    /** `handleArchiveSelected`: the selected keys in order through `RunBatch`; on
        success the list is reloaded and the selection cleared, on failure both are
        kept; `archiving` is empty again at the end. */
    method HandleArchiveSelected(user: Option<UserId>, checkFails: set<string>, insertFails: set<string>,
                                 idFor: string -> string, now: string, reloadSucceeds: bool, db: Db)
      returns (db': Db, outcome: BatchOutcome)
      requires Valid()
      modifies this
      ensures Valid()
      ensures old(selectedMonths) == [] ==>
        && outcome == NothingSelected && db' == db
        && selectedMonths == old(selectedMonths) && monthlyData == old(monthlyData)
        && archiving == old(archiving) && loading == old(loading)
      ensures old(selectedMonths) != [] && user.None? ==>
        && outcome == BatchFailed && db' == db
        && selectedMonths == old(selectedMonths) && monthlyData == old(monthlyData) && archiving == {}
        && loading == old(loading)
      ensures old(selectedMonths) != [] && user.Some? ==>
        var run := RunBatch(old(selectedMonths), old(monthlyData), user.value, db, checkFails, insertFails, idFor, now, 0);
        && db' == run.db
        && archiving == {}
        && (run.failed ==>
              && outcome == BatchFailed && selectedMonths == old(selectedMonths)
              && monthlyData == old(monthlyData) && loading == old(loading))
        && (!run.failed ==>
              && outcome == BatchDone(run.count)
              && (forall md :: md in old(monthlyData) && !md.isArchived && FormatKey(md.year, md.month) in old(selectedMonths) ==>
                    HasArchive(db'.archives, user.value, md))
              && !loading
              && selectedMonths == []
              && (reloadSucceeds ==> MonthlyView(monthlyData, RecordsOf(db', user.value), ArchivesOf(db', user.value)))
              && (!reloadSucceeds ==> monthlyData == old(monthlyData)))
    {
      var keys := selectedMonths;
      var data := monthlyData;
      db' := db;
      if |keys| == 0 {
        outcome := NothingSelected;
        return;
      }
      archiving := set k | k in keys;
      if user.None? {
        outcome := BatchFailed;
        archiving := {};
        return;
      }
      var count, failed;
      db', count, failed := ArchiveMonths(keys, data, user.value, db, checkFails, insertFails, idFor, now);
      if failed {
        outcome := BatchFailed;
      } else {
        outcome := BatchDone(count);
        SelectedMonthsArchived(keys, data, user.value, db, checkFails, insertFails, idFor, now, 0);
        LoadMonthlyData(user, db', reloadSucceeds);
        selectedMonths := [];
      }
      archiving := {};
    }
  }
}
