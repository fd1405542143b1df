/**
 * `_stageLookup`: routes one release to the lookups in order — the sentinel straight to
 * the title heuristic; otherwise predb by request ID and group, where exactly one row
 * passes through the season guard, any other row count goes to the title heuristic, and
 * a failed query goes to the alternate-group lookup and then the title heuristic.
 */
module StageRouter {
  import opened Wrappers
  import opened Text
  import opened Status
  import opened PreDb
  import opened TitleLookup
  import opened GroupRemap

  predicate IsLetterS(c: char) { c == 's' || c == 'S' }
  predicate IsLetterE(c: char) { c == 'e' || c == 'E' }

  /** `s\d+` matches at `i`: an `s` in either case followed by at least one digit. */
  predicate SeasonAt(t: string, i: nat) {
    i + 1 < |t| && IsLetterS(t[i]) && IsDigit(t[i + 1])
  }

  /** `s\d+e\d+` matches at `i` with the digits of the season ending at `j`. */
  predicate SeasonEpisodeAt(t: string, i: nat, j: nat) {
    i + 1 < j && j + 1 < |t| && IsLetterS(t[i]) && AllIn(IsDigit, t, i + 1, j) && IsLetterE(t[j]) && IsDigit(t[j + 1])
  }

  /** `preg_match('/s\d+/i', $title)`: the pattern matches somewhere. */
  predicate HasSeason(t: string) {
    exists i: nat | i < |t| :: SeasonAt(t, i)
  }

  /** `preg_match('/s\d+e\d+/i', $title)`: the pattern matches somewhere. */
  predicate HasSeasonEpisode(t: string) {
    exists i: nat, j: nat | i < j < |t| :: SeasonEpisodeAt(t, i, j)
  }

  /** The season guard: a season marker without an episode marker is an unsafe title. */
  predicate SeasonOnly(t: string) {
    HasSeason(t) && !HasSeasonEpisode(t)
  }

  /** Every `s\d+e\d+` match contains an `s\d+` match, so the guard never rejects an episode title. */
  lemma EpisodeTitlePassesGuard(t: string)
    requires HasSeasonEpisode(t)
    ensures HasSeason(t) && !SeasonOnly(t)
  {
    var i: nat, j: nat :| i < j < |t| && SeasonEpisodeAt(t, i, j);
    assert IsDigit(t[i + 1]);
    assert SeasonAt(t, i);
  }

  /** The WHERE condition `requestid = %d AND group_id = %d`. */
  predicate ByRequest(requestId: int, groupId: int, row: PreRow) {
    row.requestid == requestId && row.groupId == groupId
  }

  /** The rows of the request-ID query under the posted group. */
  function RequestRows(requestId: int, group: string, cat: Catalog): (rows: seq<PreRow>)
    ensures forall row | row in rows :: row in cat.predb && ByRequest(requestId, cat.groupIdOf(group), row)
    ensures forall row | row in cat.predb && ByRequest(requestId, cat.groupIdOf(group), row) :: row in rows
  {
    Select(cat.predb, (row: PreRow) => ByRequest(requestId, cat.groupIdOf(group), row))
  }

  /**
   * `_stageLookup($requestID, $groupName, $oldName)`. `queryFails` says whether the
   * request-ID `queryDirect` returned `false` (a storage error).
   */
  function StageLookup(requestId: int, group: string, name: string, cat: Catalog, queryFails: bool): (r: Option<PreMatch>)
    ensures r.Some? ==> exists row | row in cat.predb :: r.value == PreMatch(row.title, row.id)
  {
    if requestId == REQID_ZERO then MultiLookup(name, cat)
    else if !queryFails then
      var rows := RequestRows(requestId, group, cat);
      if |rows| == 1 then
        if SeasonOnly(rows[0].title) then None
        else
          assert rows[0] in rows;
          Some(PreMatch(rows[0].title, rows[0].id))
      else MultiLookup(name, cat)
    else
      var alt := SingleAltLookup(requestId, group, name, cat);
      // `is_numeric($result['id'])` always holds: predb ids are integers.
      if alt.Some? && alt.value.title != "" then alt else MultiLookup(name, cat)
  }

  /** The sentinel goes straight to the title heuristic; no request-ID query matters. */
  lemma StageSentinel(group: string, name: string, cat: Catalog, queryFails: bool)
    ensures StageLookup(REQID_ZERO, group, name, cat, queryFails) == MultiLookup(name, cat)
  {
  }

  /**
   * A failed request-ID query falls back to the alternate-group lookup when it gives a
   * non-empty title, and to the title heuristic otherwise.
   */
  lemma StageQueryFailed(requestId: int, group: string, name: string, cat: Catalog)
    requires requestId != REQID_ZERO
    ensures var alt := SingleAltLookup(requestId, group, name, cat);
            StageLookup(requestId, group, name, cat, true)
              == if alt.Some? && alt.value.title != "" then alt else MultiLookup(name, cat)
  {
  }

  /**
   * Any row count other than one — zero as well as several — goes to the title heuristic;
   * zero rows do not reach the alternate-group lookup.
   */
  lemma StageNotUnique(requestId: int, group: string, name: string, cat: Catalog)
    requires requestId != REQID_ZERO
    requires |RequestRows(requestId, group, cat)| != 1
    ensures StageLookup(requestId, group, name, cat, false) == MultiLookup(name, cat)
  {
  }

  /** Two predb rows sharing the request ID and group are never picked between. */
  lemma StageAmbiguous(requestId: int, group: string, name: string, cat: Catalog, i: nat, j: nat)
    requires requestId != REQID_ZERO
    requires i < j < |cat.predb|
    requires ByRequest(requestId, cat.groupIdOf(group), cat.predb[i])
    requires ByRequest(requestId, cat.groupIdOf(group), cat.predb[j])
    ensures StageLookup(requestId, group, name, cat, false) == MultiLookup(name, cat)
  {
    SelectAtLeastTwo(cat.predb, (row: PreRow) => ByRequest(requestId, cat.groupIdOf(group), row), i, j);
  }

  /**
   * Exactly one row: a season-only title is rejected outright (no title-heuristic
   * fallback); any other title is returned with its id unchanged.
   */
  lemma StageSingleRow(requestId: int, group: string, name: string, cat: Catalog)
    requires requestId != REQID_ZERO
    requires |RequestRows(requestId, group, cat)| == 1
    ensures var row := RequestRows(requestId, group, cat)[0];
            && row in cat.predb && ByRequest(requestId, cat.groupIdOf(group), row)
            && StageLookup(requestId, group, name, cat, false)
                 == if SeasonOnly(row.title) then None else Some(PreMatch(row.title, row.id))
  {
    assert RequestRows(requestId, group, cat)[0] in RequestRows(requestId, group, cat);
  }

  /**
   * Exactly one predb row with the request ID under the posted group: it reaches the season
   * guard alone, and is returned unless its title is season-only.
   */
  lemma StageUniqueRow(requestId: int, group: string, name: string, cat: Catalog, k: nat)
    requires requestId != REQID_ZERO
    requires k < |cat.predb| && ByRequest(requestId, cat.groupIdOf(group), cat.predb[k])
    requires forall j | 0 <= j < |cat.predb| && j != k :: !ByRequest(requestId, cat.groupIdOf(group), cat.predb[j])
    ensures StageLookup(requestId, group, name, cat, false)
              == if SeasonOnly(cat.predb[k].title) then None else Some(PreMatch(cat.predb[k].title, cat.predb[k].id))
  {
    SelectOne(cat.predb, (row: PreRow) => ByRequest(requestId, cat.groupIdOf(group), row), k);
  }

  /**
   * A failed request-ID query with a rule firing: when the first predb row with the
   * request ID under the alternate group has a title, that row is the result.
   */
  lemma StageAltRemap(requestId: int, group: string, name: string, cat: Catalog, k: nat)
    requires requestId != REQID_ZERO
    requires Remap(group, name).Some?
    requires k < |cat.predb|
    requires cat.predb[k].requestid == requestId && cat.predb[k].groupId == cat.groupIdOf(Remap(group, name).value)
    requires forall j | 0 <= j < k ::
               !(cat.predb[j].requestid == requestId && cat.predb[j].groupId == cat.groupIdOf(Remap(group, name).value))
    requires cat.predb[k].title != ""
    ensures StageLookup(requestId, group, name, cat, true) == Some(PreMatch(cat.predb[k].title, cat.predb[k].id))
  {
    AltFirstRow(requestId, group, name, cat, k);
  }

  /** No predb row with the request ID under the posted group: the title heuristic decides. */
  lemma StageNoRow(requestId: int, group: string, name: string, cat: Catalog)
    requires requestId != REQID_ZERO
    requires forall j | 0 <= j < |cat.predb| :: !ByRequest(requestId, cat.groupIdOf(group), cat.predb[j])
    ensures StageLookup(requestId, group, name, cat, false) == MultiLookup(name, cat)
  {
    SelectNone(cat.predb, (row: PreRow) => ByRequest(requestId, cat.groupIdOf(group), row));
  }
}
