/**
 * Rows of the `releases` table and the two writes this engine makes to them:
 * the rename of `_updateRelease` and the status-only write of `_requestIdNotFound`.
 */
module Releases {
  import opened Wrappers
  import opened Status

  /** The category-specific metadata that a category change invalidates (NULL is None). */
  datatype Derived = Derived(
    seriesfull: Option<string>, season: Option<string>, episode: Option<string>,
    tvtitle: Option<string>, tvairdate: Option<string>, imdbid: Option<int>,
    musicinfoid: Option<int>, consoleinfoid: Option<int>, bookinfoid: Option<int>,
    anidbid: Option<int>)

  /** One release row: the columns the engine selects on, reads or writes. */
  datatype Release = Release(
    id: int, name: string, searchname: string, groupId: int, categoryid: int,
    postdate: int, nzbstatus: int, isrequestid: int, isrenamed: int, iscategorized: int,
    preid: int, reqidstatus: int, rageid: int, derived: Derived)

  /** Every field of the metadata set to NULL. */
  function Cleared(): Derived {
    Derived(None, None, None, None, None, None, None, None, None, None)
  }

  /** The reset made on a category change: `rageid = -1` and the metadata columns NULL. */
  function ResetDerivedMetadata(r: Release): (r': Release)
    ensures r'.rageid == -1 && r'.derived == Cleared()
    ensures r' == r.(rageid := r'.rageid, derived := r'.derived)
  {
    r.(rageid := -1, derived := Cleared())
  }

  /**
   * The row after `_updateRelease($title, $preid, $determinedcat, $row, ...)`, where
   * `snapshotCategory` is the `categoryid` the batch query read for it.
   */
  function Renamed(r: Release, title: string, preid: int, determinedCategory: int, snapshotCategory: int): Release {
    var r1 := r.(preid := preid, reqidstatus := REQID_FOUND, isrenamed := 1, iscategorized := 1, searchname := title);
    if determinedCategory == snapshotCategory then r1
    else ResetDerivedMetadata(r1).(categoryid := determinedCategory)
  }

  /** Both branches of the rename: which fields change and to what, and that nothing else does. */
  lemma RenamedFields(r: Release, title: string, preid: int, cat: int, snapshot: int)
    ensures var r' := Renamed(r, title, preid, cat, snapshot);
            && r'.preid == preid && r'.reqidstatus == REQID_FOUND
            && r'.isrenamed == 1 && r'.iscategorized == 1 && r'.searchname == title
            && r'.id == r.id && r'.name == r.name && r'.groupId == r.groupId && r'.postdate == r.postdate
            && r'.nzbstatus == r.nzbstatus && r'.isrequestid == r.isrequestid
            && (cat == snapshot ==> r'.categoryid == r.categoryid && r'.rageid == r.rageid && r'.derived == r.derived)
            && (cat != snapshot ==> r'.categoryid == cat && r'.rageid == -1 && r'.derived == Cleared())
  {
  }

  /** Ids are a key: no two rows share one. */
  ghost predicate UniqueIds(rows: seq<Release>) {
    forall i, j | 0 <= i < j < |rows| :: rows[i].id != rows[j].id
  }

  /** `UPDATE releases SET ... WHERE id = <id>` for the rename. */
  function RenameWhere(rows: seq<Release>, id: int, title: string, preid: int, cat: int, snapshot: int): (rows': seq<Release>)
    ensures |rows'| == |rows|
    ensures forall k | 0 <= k < |rows| ::
              rows'[k] == if rows[k].id == id then Renamed(rows[k], title, preid, cat, snapshot) else rows[k]
  {
    seq(|rows|, k requires 0 <= k < |rows| =>
      if rows[k].id == id then Renamed(rows[k], title, preid, cat, snapshot) else rows[k])
  }

  /** `UPDATE releases SET reqidstatus = <status> WHERE id = <id>`. */
  function StatusWhere(rows: seq<Release>, id: int, status: int): (rows': seq<Release>)
    ensures |rows'| == |rows|
    ensures forall k | 0 <= k < |rows| ::
              rows'[k] == if rows[k].id == id then rows[k].(reqidstatus := status) else rows[k]
  {
    seq(|rows|, k requires 0 <= k < |rows| =>
      if rows[k].id == id then rows[k].(reqidstatus := status) else rows[k])
  }

  /** Neither write changes a row's id, so the key stays a key. */
  lemma WritesKeepIds(rows: seq<Release>, id: int, title: string, preid: int, cat: int, snapshot: int, status: int)
    requires UniqueIds(rows)
    ensures UniqueIds(RenameWhere(rows, id, title, preid, cat, snapshot))
    ensures UniqueIds(StatusWhere(rows, id, status))
  {
  }
}
