/** The archive list (components/archives-view.tsx): fetching every archive newest
    month first, deleting one by id, and the collapsible cards of which at most one
    is open. */
module ArchivesView {
  import opened Collections
  import opened Schema
  import opened Store

  function YearMonthOf(a: Archive): (int, int) {
    (a.year, a.month)
  }

  /** `select('*').order('year', desc).order('month', desc)`: the stored archives,
      each exactly once, year descending and month descending within a year. */
  function ListArchives(db: Db): (listed: seq<Archive>)
    ensures SortedNewestFirst(listed, YearMonthOf)
    ensures multiset(listed) == multiset(db.archives)
    ensures forall a :: a in listed <==> a in db.archives
  {
    var s := SortNewestFirst(db.archives, YearMonthOf);
    assert forall a :: a in s <==> a in multiset(s);
    s
  }

  /** After deleting `id` and listing again, the list holds exactly the archives it
      held before except those with that id, and the records table is untouched. */
  lemma ListingAfterDelete(db: Db, id: string)
    ensures forall a :: a in ListArchives(DeleteArchive(db, id)) <==> a in ListArchives(db) && a.id != id
    ensures DeleteArchive(db, id).records == db.records
    ensures |ListArchives(DeleteArchive(db, id))| <= |ListArchives(db)|
  {
  }

  /** The archive listed first is of the newest month stored. */
  lemma FirstIsNewest(db: Db)
    requires db.archives != []
    ensures forall a :: a in db.archives ==> NewerOrSame(YearMonthOf(ListArchives(db)[0]), YearMonthOf(a))
  {
    var listed := ListArchives(db);
    forall a | a in db.archives
      ensures NewerOrSame(YearMonthOf(listed[0]), YearMonthOf(a))
    {
      assert a in listed;
      var j :| 0 <= j < |listed| && listed[j] == a;
      if j > 0 {
        assert NewerOrSame(YearMonthOf(listed[0]), YearMonthOf(listed[j]));
      }
    }
  }

  /** `onOpenChange` of the card `id`: the open card closes, any other opens in
      place of whatever was open. */
  function Toggle(expanded: Option<string>, id: string): (e: Option<string>)
    ensures e == Some(id) <==> expanded != Some(id)
    ensures forall other :: other != id ==> e != Some(other)
  {
    if expanded == Some(id) then None else Some(id)
  }

  /** Toggling the same card twice restores the state only when no other card was
      open before; otherwise everything ends closed. */
  lemma ToggleTwice(expanded: Option<string>, id: string)
    ensures Toggle(Toggle(expanded, id), id) == if expanded == Some(id) then expanded else None
  {
  }

  /** What the component renders: a loading card, the empty-archive message, or one
      card per archive in list order. */
  datatype Screen = LoadingCard | NoArchives | Cards(shown: seq<Archive>)

  function Render(loading: bool, archives: seq<Archive>): (v: Screen)
    ensures v.LoadingCard? <==> loading
    ensures v.NoArchives? <==> !loading && archives == []
    ensures v.Cards? ==> v.shown == archives && |v.shown| > 0
  {
    if loading then LoadingCard
    else if archives == [] then NoArchives
    else Cards(archives)
  }

  class ArchivesState {
    var archives: seq<Archive>
    var loading: bool
    var expandedArchive: Option<string>

    /** Mounting: an empty list, the loading card, nothing expanded. */
    constructor()
      ensures archives == [] && loading && expandedArchive == None
    {
      archives := [];
      loading := true;
      expandedArchive := None;
    }

    /** `fetchArchives`: a successful query replaces the list; a failed one keeps the
        previous list. Loading ends either way. */
    method FetchArchives(db: Db, fetchSucceeds: bool)
      modifies this
      ensures !loading
      ensures fetchSucceeds ==> archives == ListArchives(db)
      ensures !fetchSucceeds ==> archives == old(archives)
      ensures expandedArchive == old(expandedArchive)
    {
      if fetchSucceeds {
        archives := ListArchives(db);
      }
      loading := false;
    }

    /** `handleDelete`: a failed delete changes neither the backend nor the screen and
        does not refetch; a successful one removes the rows with that id, and only
        those, and refetches. */
    method HandleDelete(id: string, deleteSucceeds: bool, refetchSucceeds: bool, db: Db)
      returns (db': Db, refetched: bool)
      modifies this
      ensures refetched <==> deleteSucceeds
      ensures !deleteSucceeds ==>
        db' == db && archives == old(archives) && loading == old(loading)
      ensures deleteSucceeds ==>
        && db' == DeleteArchive(db, id)
        && !loading
        && (refetchSucceeds ==> archives == ListArchives(db'))
        && (!refetchSucceeds ==> archives == old(archives))
      ensures db'.records == db.records
      ensures expandedArchive == old(expandedArchive)
    {
      if !deleteSucceeds {
        db', refetched := db, false;
        return;
      }
      db' := DeleteArchive(db, id);
      refetched := true;
      FetchArchives(db', refetchSucceeds);
    }

    /** A click on the card `id`: afterwards that card is open exactly when it was
        closed, and no other card is open. */
    method OnOpenChange(id: string)
      modifies this
      ensures expandedArchive == Toggle(old(expandedArchive), id)
      ensures expandedArchive == Some(id) <==> old(expandedArchive) != Some(id)
      ensures archives == old(archives) && loading == old(loading)
    {
      expandedArchive := Toggle(expandedArchive, id);
    }
  }
}
