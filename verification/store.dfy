/** The hosted backend as an in-memory value: the `records` and `archives` tables
    and the handful of queries the components issue against them. Whether a call
    reaches the backend, and the ids and timestamps it generates, are decided by
    the caller of each handler (parameters), not modelled here. */
module Store {
  import opened Collections
  import opened Schema

  datatype Db = Db(records: seq<Record>, archives: seq<Archive>)

  /** The id the purge filter `.neq('id', ...)` compares against. */
  const NilUuid: string := "00000000-0000-0000-0000-000000000000"

  /** `from('records').insert(r)`: one more row after the existing ones, which stay
      as they were; archives are untouched. */
  function InsertRecord(db: Db, r: Record): (db': Db)
    ensures |db'.records| == |db.records| + 1 && db'.records[|db.records|] == r
    ensures db'.records[..|db.records|] == db.records && db'.archives == db.archives
  {
    db.(records := db.records + [r])
  }

  /** `from('archives').insert(a)`: one more row after the existing ones, which stay
      as they were; records are untouched. */
  function InsertArchive(db: Db, a: Archive): (db': Db)
    ensures |db'.archives| == |db.archives| + 1 && db'.archives[|db.archives|] == a
    ensures db'.archives[..|db.archives|] == db.archives && db'.records == db.records
  {
    db.(archives := db.archives + [a])
  }

  /** `from('records').delete().neq('id', NilUuid)`: every row whose id is not the nil
      UUID goes, whoever owns it and whatever month it is in. */
  function PurgeRecords(db: Db): (db': Db)
    ensures db'.archives == db.archives
    ensures forall r :: r in db'.records ==> r.id == NilUuid
    ensures forall r :: r in db.records && r.id == NilUuid ==> r in db'.records
  {
    db.(records := Filter(db.records, (r: Record) => r.id == NilUuid))
  }

  /** `from('archives').delete().eq('id', id)`. */
  function DeleteArchive(db: Db, id: string): (db': Db)
    ensures db'.records == db.records
    ensures forall a :: a in db'.archives <==> a in db.archives && a.id != id
    ensures |db'.archives| <= |db.archives|
  {
    db.(archives := Filter(db.archives, (a: Archive) => a.id != id))
  }

  /** `from('records').select('*').eq('user_id', user)`. */
  function RecordsOf(db: Db, user: UserId): (rs: seq<Record>)
    ensures forall r :: r in rs <==> r in db.records && r.userId == user
  {
    Filter(db.records, (r: Record) => r.userId == user)
  }

  /** `from('archives').select('month, year').eq('user_id', user)`. */
  function ArchivesOf(db: Db, user: UserId): (as_: seq<Archive>)
    ensures forall a :: a in as_ <==> a in db.archives && a.userId == user
  {
    Filter(db.archives, (a: Archive) => a.userId == user)
  }

  predicate IsFor(a: Archive, user: UserId, month: nat, year: nat) {
    a.userId == user && a.month == month && a.year == year
  }

  /** `.eq('user_id', user).eq('month', month).eq('year', year)` on `archives`. */
  function Matching(archives: seq<Archive>, user: UserId, month: nat, year: nat): (rows: seq<Archive>)
    ensures forall a :: a in rows <==> a in archives && IsFor(a, user, month, year)
    ensures |rows| <= |archives|
  {
    Filter(archives, (a: Archive) => IsFor(a, user, month, year))
  }

  /** What `.maybeSingle()` answers: no row, the one row, or an error when
      more than one row matches. */
  datatype Single<T> = Row(row: Option<T>) | TooManyRows

  function MaybeSingle<T>(rows: seq<T>): (r: Single<T>)
    ensures r == Row(None) <==> rows == []
    ensures r.TooManyRows? <==> |rows| > 1
    ensures r.Row? && r.row.Some? ==> rows == [r.row.value]
  {
    if |rows| == 0 then Row(None)
    else if |rows| == 1 then Row(Some(rows[0]))
    else TooManyRows
  }

  /** The duplicate check both archive paths run. The handlers read only `data`,
      which is null both when the request fails and when maybeSingle errs, so every
      error reads as "no archive yet". */
  function ExistingArchive(db: Db, user: UserId, month: nat, year: nat, requestFailed: bool): (r: Option<Archive>)
    ensures r.Some? ==> r.value in db.archives && IsFor(r.value, user, month, year)
    ensures requestFailed ==> r.None?
    ensures |Matching(db.archives, user, month, year)| >= 2 ==> r.None?
    ensures !requestFailed && |Matching(db.archives, user, month, year)| == 1 ==> r.Some?
  {
    if requestFailed then None
    else match MaybeSingle(Matching(db.archives, user, month, year))
      case Row(o) => o
      case TooManyRows => None
  }

  /** Once a month is stored twice, `maybeSingle` errs on every later check, so the
      guard lets every further insert of that month through, and the month stays
      duplicated whatever else is inserted. */
  lemma DuplicateDisablesGuard(db: Db, user: UserId, month: nat, year: nat, requestFailed: bool, a: Archive)
    requires |Matching(db.archives, user, month, year)| >= 2
    ensures ExistingArchive(db, user, month, year, requestFailed).None?
    ensures |Matching(InsertArchive(db, a).archives, user, month, year)| >= 2
  {
    FilterSnoc(db.archives, a, (b: Archive) => IsFor(b, user, month, year));
  }

  /** The intended invariant: at most one archive per (user, month, year). */
  predicate UniqueKeys(archives: seq<Archive>) {
    forall i, j :: 0 <= i < j < |archives| ==>
      !IsFor(archives[j], archives[i].userId, archives[i].month, archives[i].year)
  }

  lemma {:induction false} UniqueMatchesAtMostOne(archives: seq<Archive>, user: UserId, month: nat, year: nat)
    requires UniqueKeys(archives)
    ensures |Matching(archives, user, month, year)| <= 1
    decreases |archives|
  {
    if archives != [] {
      var init, last := archives[..|archives| - 1], archives[|archives| - 1];
      assert archives == init + [last];
      var p := (a: Archive) => IsFor(a, user, month, year);
      FilterSnoc(init, last, p);
      if p(last) {
        forall a | a in init ensures !p(a) {
          var i :| 0 <= i < |init| && init[i] == a;
          assert archives[i] == a;
        }
        FilterNone(init, p);
      } else {
        UniqueMatchesAtMostOne(init, user, month, year);
      }
    }
  }

  /** With unique keys and a request that succeeds, the check finds an archive
      exactly when one for that (user, month, year) is stored. */
  lemma ExistingArchiveExact(db: Db, user: UserId, month: nat, year: nat)
    requires UniqueKeys(db.archives)
    ensures ExistingArchive(db, user, month, year, false).Some?
            <==> exists a :: a in db.archives && IsFor(a, user, month, year)
  {
    var rows := Matching(db.archives, user, month, year);
    UniqueMatchesAtMostOne(db.archives, user, month, year);
    if a :| a in db.archives && IsFor(a, user, month, year) {
      assert a in rows;
    }
  }

  /** Inserting an archive whose key is not yet taken keeps the keys unique. */
  lemma InsertKeepsUnique(db: Db, a: Archive)
    requires UniqueKeys(db.archives)
    requires forall b :: b in db.archives ==> !IsFor(b, a.userId, a.month, a.year)
    ensures UniqueKeys(InsertArchive(db, a).archives)
  {
    var s := InsertArchive(db, a).archives;
    forall i, j | 0 <= i < j < |s|
      ensures !IsFor(s[j], s[i].userId, s[i].month, s[i].year)
    {
      if j == |s| - 1 {
        assert s[i] in db.archives;
      }
    }
  }
}
