/**
 * `ReqIDLocal`: the batch run. For every row the work query returns, extract the request
 * ID, route it through the lookups, then either rename the release (`_updateRelease`)
 * or write a failure status (`_requestIdNotFound`). The releases table lives in the
 * class and its methods update rows in place; the scratch fields of the source are
 * plain parameters and locals here.
 */
module LocalLookup {
  import opened Wrappers
  import opened Status
  import opened PreDb
  import opened ReqIdSift
  import opened StageRouter
  import opened Releases
  import opened WorkQuery

  /** What a run does to one fetched row. */
  datatype Action = Rename(title: string, preid: int, category: int) | MarkFailed(status: int)

  /**
   * What the run consults besides the releases table: the catalog, the classifier
   * `Categorize::determineCategory(title, groupId)`, and the ids of the releases whose
   * request-ID query fails (returns `false`) during this run.
   */
  datatype Env = Env(catalog: Catalog, determineCategory: (string, int) -> int, stageQueryFails: set<int>)

  /** The failure status: `REQID_NOLL` for a row still unprocessed, `REQID_NONE` for any other. */
  function FailureStatus(currentStatus: int): (status: int)
    ensures status == REQID_NOLL <==> currentStatus == REQID_UPROC
    ensures status == REQID_NOLL || status == REQID_NONE
  {
    if currentStatus == REQID_UPROC then REQID_NOLL else REQID_NONE
  }

  /** The stage result for a fetched row. */
  function Found(w: WorkRow, env: Env): Option<PreMatch> {
    StageLookup(SiftReqId(w.name), w.groupname, w.name, env.catalog, w.id in env.stageQueryFails)
  }

  /** The body of the per-row loop: a rename exactly when the lookup gives a non-empty title. */
  function RowAction(w: WorkRow, env: Env): (a: Action)
    ensures a.Rename? <==> Found(w, env).Some? && Found(w, env).value.title != ""
    ensures a.Rename? ==> a.title != "" && exists row | row in env.catalog.predb :: a.title == row.title && a.preid == row.id
    ensures a.Rename? ==> a == Rename(Found(w, env).value.title, Found(w, env).value.id,
                                      env.determineCategory(Found(w, env).value.title, w.gid))
    ensures a.MarkFailed? ==> a.status == FailureStatus(w.reqidstatus)
  {
    var found := Found(w, env);
    if found.Some? && found.value.title != "" then
      Rename(found.value.title, found.value.id, env.determineCategory(found.value.title, w.gid))
    else MarkFailed(FailureStatus(w.reqidstatus))
  }

  /** The table after the write the action makes for the fetched row `w`. */
  function Write(rows: seq<Release>, w: WorkRow, a: Action): seq<Release> {
    match a
    case Rename(title, preid, cat) => RenameWhere(rows, w.id, title, preid, cat, w.categoryid)
    case MarkFailed(status) => if w.id == 0 then rows else StatusWhere(rows, w.id, status)
  }

  /** What the action does to the table row the fetched row `w` was read from. */
  function Effect(r: Release, w: WorkRow, a: Action): Release {
    match a
    case Rename(title, preid, cat) => Renamed(r, title, preid, cat, w.categoryid)
    case MarkFailed(status) => if w.id == 0 then r else r.(reqidstatus := status)
  }

  /** The table after the loop has handled the fetched rows `work`, in order. */
  function ApplyBatch(rows: seq<Release>, work: seq<WorkRow>, env: Env): seq<Release>
    decreases |work|
  {
    if work == [] then rows
    else
      var last := work[|work| - 1];
      Write(ApplyBatch(rows, work[..|work| - 1], env), last, RowAction(last, env))
  }

  /** `$counted`: the number of fetched rows renamed. */
  function RenameCount(work: seq<WorkRow>, env: Env): (n: nat)
    ensures n <= |work|
    decreases |work|
  {
    if work == [] then 0
    else RenameCount(work[..|work| - 1], env) + (if RowAction(work[|work| - 1], env).Rename? then 1 else 0)
  }

  /** The fetched row with the given id, if any. */
  function WorkFor(work: seq<WorkRow>, id: int): (r: Option<WorkRow>)
    ensures r.Some? ==> r.value in work && r.value.id == id
    ensures r.None? ==> forall w | w in work :: w.id != id
  {
    if work == [] then None
    else if work[0].id == id then Some(work[0])
    else WorkFor(work[1..], id)
  }

  ghost predicate DistinctIds(work: seq<WorkRow>) {
    forall i, j | 0 <= i < j < |work| :: work[i].id != work[j].id
  }

  /** The table row after the batch: its own fetched row's effect if it was fetched, else untouched. */
  function Written(r: Release, work: seq<WorkRow>, env: Env): Release {
    match WorkFor(work, r.id)
    case None => r
    case Some(w) => Effect(r, w, RowAction(w, env))
  }

  lemma WorkForDistinct(work: seq<WorkRow>, k: nat)
    requires DistinctIds(work) && k < |work|
    ensures WorkFor(work, work[k].id) == Some(work[k])
  {
    var r := WorkFor(work, work[k].id);
    var j :| 0 <= j < |work| && work[j] == r.value;
  }

  /** A write touches exactly the rows carrying the fetched row's id. */
  lemma WriteAt(rows: seq<Release>, w: WorkRow, a: Action, k: nat)
    requires k < |rows|
    ensures |Write(rows, w, a)| == |rows|
    ensures Write(rows, w, a)[k] == if rows[k].id == w.id then Effect(rows[k], w, a) else rows[k]
  {
  }

  /**
   * Each fetched row gets exactly one write, made to its own table row, and every other
   * row is left as it was: the outcome does not depend on the order of the batch.
   */
  lemma {:induction false} BatchWritesEachRowOnce(rows: seq<Release>, work: seq<WorkRow>, env: Env)
    requires DistinctIds(work)
    ensures |ApplyBatch(rows, work, env)| == |rows|
    ensures forall k | 0 <= k < |rows| :: ApplyBatch(rows, work, env)[k] == Written(rows[k], work, env)
    decreases |work|
  {
    if work != [] {
      var front := work[..|work| - 1];
      var last := work[|work| - 1];
      assert work == front + [last];
      assert DistinctIds(front);
      BatchWritesEachRowOnce(rows, front, env);
      var before := ApplyBatch(rows, front, env);
      assert ApplyBatch(rows, work, env) == Write(before, last, RowAction(last, env));
      forall k | 0 <= k < |rows| ensures ApplyBatch(rows, work, env)[k] == Written(rows[k], work, env) {
        BatchStepAt(rows[k], before[k], front, last, env);
        WriteAt(before, last, RowAction(last, env), k);
      }
    }
  }

  /** Neither write changes the id of the row it is made to. */
  lemma EffectKeepsId(r: Release, w: WorkRow, a: Action)
    ensures Effect(r, w, a).id == r.id
  {
    if a.Rename? {
      RenamedFields(r, a.title, a.preid, a.category, w.categoryid);
    }
  }

  /** One table row across one more fetched row, given what it was after the rows before. */
  lemma BatchStepAt(r: Release, before: Release, front: seq<WorkRow>, last: WorkRow, env: Env)
    requires DistinctIds(front + [last])
    requires before == Written(r, front, env)
    ensures before.id == r.id
    ensures (if before.id == last.id then Effect(before, last, RowAction(last, env)) else before)
              == Written(r, front + [last], env)
  {
    LastWriteAt(r, front, last, env);
    match WorkFor(front, r.id)
    case None =>
    case Some(w) => EffectKeepsId(r, w, RowAction(w, env));
  }

  /** How appending one fetched row changes what a table row ends up as. */
  lemma LastWriteAt(r: Release, front: seq<WorkRow>, last: WorkRow, env: Env)
    requires DistinctIds(front + [last])
    ensures r.id == last.id ==> Written(r, front, env) == r
                                && Written(r, front + [last], env) == Effect(r, last, RowAction(last, env))
    ensures r.id != last.id ==> Written(r, front + [last], env) == Written(r, front, env)
  {
    var work := front + [last];
    if r.id == last.id {
      WorkForDistinct(work, |work| - 1);
      forall w | w in front ensures w.id != r.id {
        var j :| 0 <= j < |front| && front[j] == w;
        assert work[j] == w;
      }
    } else {
      WorkForPrefix(front, last, r.id);
    }
  }

  lemma {:induction false} WorkForPrefix(front: seq<WorkRow>, last: WorkRow, id: int)
    requires last.id != id
    ensures WorkFor(front + [last], id) == WorkFor(front, id)
    decreases |front|
  {
    if front != [] {
      assert (front + [last])[1..] == front[1..] + [last];
      WorkForPrefix(front[1..], last, id);
    }
  }

  /** One more fetched row: the table and the count after it follow from those before it. */
  lemma BatchStep(rows: seq<Release>, work: seq<WorkRow>, env: Env, k: nat)
    requires k < |work|
    ensures ApplyBatch(rows, work[..k + 1], env) == Write(ApplyBatch(rows, work[..k], env), work[k], RowAction(work[k], env))
    ensures RenameCount(work[..k + 1], env) == RenameCount(work[..k], env) + (if RowAction(work[k], env).Rename? then 1 else 0)
  {
    assert work[..k + 1][..k] == work[..k];
  }

  /** The work query returns each table row at most once. */
  lemma SelectionDistinct(rows: seq<Release>, groups: map<int, string>, args: RunArgs, now: int)
    requires UniqueIds(rows)
    ensures DistinctIds(Selection(rows, groups, args, now))
  {
    SelectionSound(rows, args, now);
  }

  /** The fetched row carrying a table row's id is that row's own projection, if it was selected. */
  lemma WorkForSelected(rows: seq<Release>, groups: map<int, string>, args: RunArgs, now: int, k: nat)
    requires UniqueIds(rows) && k < |rows|
    ensures WorkFor(Selection(rows, groups, args, now), rows[k].id)
              == if rows[k] in SelectedReleases(rows, args, now) then Some(WorkOf(rows[k], groups)) else None
  {
    var sel := SelectedReleases(rows, args, now);
    var work := Selection(rows, groups, args, now);
    SelectionSound(rows, args, now);
    SelectionDistinct(rows, groups, args, now);
    if rows[k] in sel {
      var m :| 0 <= m < |sel| && sel[m] == rows[k];
      assert work[m] == WorkOf(rows[k], groups);
      WorkForDistinct(work, m);
    } else {
      forall w | w in work ensures w.id != rows[k].id {
        var m :| 0 <= m < |work| && work[m] == w;
        assert sel[m] in rows;
        var j :| 0 <= j < |rows| && rows[j] == sel[m];
        assert j == k || rows[j].id != rows[k].id;
      }
    }
  }

  /**
   * The outcome of a run on one table row: a selected row ends up as the effect of the
   * action computed from its own fetched values; a row not selected is untouched.
   */
  lemma RunOutcome(rows: seq<Release>, groups: map<int, string>, args: RunArgs, now: int, env: Env, k: nat)
    requires UniqueIds(rows) && k < |rows|
    ensures var after := ApplyBatch(rows, Selection(rows, groups, args, now), env);
            && |after| == |rows|
            && after[k] == if rows[k] in SelectedReleases(rows, args, now)
                           then Effect(rows[k], WorkOf(rows[k], groups), RowAction(WorkOf(rows[k], groups), env))
                           else rows[k]
  {
    SelectionDistinct(rows, groups, args, now);
    BatchWritesEachRowOnce(rows, Selection(rows, groups, args, now), env);
    WorkForSelected(rows, groups, args, now, k);
  }

  /**
   * A renamed row is settled: once `preid` is set no mode selects it again, and even
   * with `preid` 0 its status `REQID_FOUND` keeps `full` and the numeric mode away.
   */
  lemma RenamedRowSettled(r: Release, w: WorkRow, title: string, preid: int, cat: int, args: RunArgs, now: int)
    ensures var r' := Effect(r, w, Rename(title, preid, cat));
            && r'.reqidstatus == REQID_FOUND && r'.searchname == title && r'.preid == preid
            && (preid != 0 || !args.mode.All? ==> !Eligible(args, now, r'))
  {
    RenamedFields(r, title, preid, cat, w.categoryid);
  }

  /** A failure write leaves an eligible row eligible: unmatched rows are retried by later runs. */
  lemma FailedRowRetried(r: Release, w: WorkRow, args: RunArgs, now: int)
    requires Eligible(args, now, r)
    ensures Eligible(args, now, Effect(r, w, MarkFailed(FailureStatus(w.reqidstatus))))
  {
  }

  /**
   * Re-running after a run: a row the first run renamed with a non-zero `preid` is not
   * among the rows any second run fetches.
   */
  lemma SecondRunSkipsRenamed(rows: seq<Release>, groups: map<int, string>, args: RunArgs, now: int, env: Env,
                              k: nat, args2: RunArgs, now2: int)
    requires UniqueIds(rows) && k < |rows|
    requires rows[k] in SelectedReleases(rows, args, now)
    requires var a := RowAction(WorkOf(rows[k], groups), env); a.Rename? && a.preid != 0
    ensures var after := ApplyBatch(rows, Selection(rows, groups, args, now), env);
            k < |after| && after[k] !in SelectedReleases(after, args2, now2)
  {
    var after := ApplyBatch(rows, Selection(rows, groups, args, now), env);
    RunOutcome(rows, groups, args, now, env, k);
    var a := RowAction(WorkOf(rows[k], groups), env);
    RenamedRowSettled(rows[k], WorkOf(rows[k], groups), a.title, a.preid, a.category, args2, now2);
    SelectionSound(after, args2, now2);
  }

  class ReqIdLocal {
    /** The releases table. */
    var releases: seq<Release>
    /** The groups table, for the work query's LEFT JOIN: id to name. */
    const groups: map<int, string>

    ghost predicate Valid()
      reads this
    {
      UniqueIds(releases)
    }

    constructor (releases: seq<Release>, groups: map<int, string>)
      requires UniqueIds(releases)
      ensures Valid() && this.releases == releases && this.groups == groups
    {
      this.releases := releases;
      this.groups := groups;
    }

    /** `_updateRelease`: rename row `row.id`; the change echo has no effect on the table. */
    method UpdateRelease(title: string, preid: int, determinedCategory: int, row: WorkRow)
      requires Valid()
      modifies this
      ensures Valid()
      ensures releases == RenameWhere(old(releases), row.id, title, preid, determinedCategory, row.categoryid)
    {
      releases := RenameWhere(releases, row.id, title, preid, determinedCategory, row.categoryid);
    }

    /** `_requestIdNotFound`: write only `reqidstatus`, and nothing at all for id 0. */
    method RequestIdNotFound(releaseId: int, status: int)
      requires Valid()
      modifies this
      ensures Valid()
      ensures releaseId == 0 ==> releases == old(releases)
      ensures releaseId != 0 ==> releases == StatusWhere(old(releases), releaseId, status)
    {
      if releaseId == 0 {
        return;
      }
      releases := StatusWhere(releases, releaseId, status);
    }

    /**
     * `standaloneLocalLookup`: one pass over the rows the work query returns. `total` is
     * the row count, `counted` the number renamed.
     */
    method StandaloneLocalLookup(args: RunArgs, now: int, env: Env) returns (counted: nat, total: nat)
      requires Valid()
      modifies this
      ensures Valid()
      ensures total == |Selection(old(releases), groups, args, now)|
      ensures counted == RenameCount(Selection(old(releases), groups, args, now), env)
      ensures counted <= total
      ensures releases == ApplyBatch(old(releases), Selection(old(releases), groups, args, now), env)
    {
      var work := Selection(releases, groups, args, now);
      total := |work|;
      counted := 0;
      var k := 0;
      while k < |work|
        invariant 0 <= k <= |work|
        invariant Valid()
        invariant counted == RenameCount(work[..k], env)
        invariant releases == ApplyBatch(old(releases), work[..k], env)
      {
        var row := work[k];
        ghost var before := releases;
        BatchStep(old(releases), work, env, k);
        var requestId := SiftReqId(row.name);
        var newTitle := StageLookup(requestId, row.groupname, row.name, env.catalog, row.id in env.stageQueryFails);
        ghost var a := RowAction(row, env);
        assert newTitle == Found(row, env);
        if newTitle.Some? && newTitle.value.title != "" {
          var title := newTitle.value.title;
          var preid := newTitle.value.id;
          var determinedCategory := env.determineCategory(title, row.gid);
          assert a == Rename(title, preid, determinedCategory);
          UpdateRelease(title, preid, determinedCategory, row);
          assert releases == Write(before, row, a);
          counted := counted + 1;
          assert counted == RenameCount(work[..k + 1], env);
        } else {
          assert a == MarkFailed(FailureStatus(row.reqidstatus));
          RequestIdNotFound(row.id, FailureStatus(row.reqidstatus));
          assert releases == Write(before, row, a);
          assert counted == RenameCount(work[..k + 1], env);
        }
        k := k + 1;
      }
      assert work[..k] == work;
    }
  }
}
