/**
 * `_multiLookup`: the title heuristic. A strict regex is tried first, then a loose one;
 * the first that matches yields a title and optionally a filename, and predb is searched
 * for `title = T OR filename = T [OR filename = F]`.
 */
module TitleLookup {
  import opened Wrappers
  import opened PreDb

  /** The captures used: regex1's when it matches, otherwise regex2's (`switch (true)` order). */
  function TitleCaptured(name: string, cat: Catalog): Option<TitleCaptures> {
    if cat.titleRegex1(name).Some? then cat.titleRegex1(name) else cat.titleRegex2(name)
  }

  /** The extra filename term: `filename1` when non-empty, else `filename2` when non-empty. */
  function ExtraFilename(m: TitleCaptures): (f: Option<string>)
    ensures f.Some? ==> f.value != "" && (f.value == m.filename1 || (m.filename1 == "" && f.value == m.filename2))
    ensures f.None? <==> m.filename1 == "" && m.filename2 == ""
  {
    if m.filename1 != "" then Some(m.filename1)
    else if m.filename2 != "" then Some(m.filename2)
    else None
  }

  /** The WHERE condition `title = T OR filename = T [OR filename = F]`. */
  predicate TitleCondition(m: TitleCaptures, row: PreRow) {
    || row.title == m.title
    || row.filename == m.title
    || (ExtraFilename(m).Some? && row.filename == ExtraFilename(m).value)
  }

  /** The query `SELECT id, title FROM predb WHERE <TitleCondition>` through `queryOneRow`. */
  function TitleQuery(m: TitleCaptures, predb: seq<PreRow>): (r: Option<PreMatch>)
    ensures r.Some? ==> exists k | 0 <= k < |predb| ::
                          && TitleCondition(m, predb[k])
                          && r.value == PreMatch(predb[k].title, predb[k].id)
                          && forall j | 0 <= j < k :: !TitleCondition(m, predb[j])
    ensures r.None? ==> forall row | row in predb :: !TitleCondition(m, row)
  {
    match FirstIndex(predb, row => TitleCondition(m, row))
    case None => None
    case Some(k) => Some(PreMatch(predb[k].title, predb[k].id))
  }

  /** `_multiLookup($groupName, $oldName)`; the group name is only kept in a scratch field. */
  function MultiLookup(name: string, cat: Catalog): (r: Option<PreMatch>)
    ensures r.Some? ==> TitleCaptured(name, cat).Some?
    ensures r.Some? ==> exists row | row in cat.predb ::
                          TitleCondition(TitleCaptured(name, cat).value, row) && r.value == PreMatch(row.title, row.id)
    ensures r.None? && TitleCaptured(name, cat).Some? ==>
              forall row | row in cat.predb :: !TitleCondition(TitleCaptured(name, cat).value, row)
  {
    match TitleCaptured(name, cat)
    case None => None
    case Some(m) => TitleQuery(m, cat.predb)
  }

  /** Neither regex matching means `false`, whatever predb holds: no query is made. */
  lemma MultiNoPattern(name: string, cat: Catalog)
    requires cat.titleRegex1(name).None? && cat.titleRegex2(name).None?
    ensures MultiLookup(name, cat) == None
  {
  }

  /** When regex1 matches, its captures are used and regex2 plays no part. */
  lemma MultiRegex1Wins(name: string, cat: Catalog, other: string -> Option<TitleCaptures>)
    requires cat.titleRegex1(name).Some?
    ensures MultiLookup(name, cat) == TitleQuery(cat.titleRegex1(name).value, cat.predb)
    ensures MultiLookup(name, cat) == MultiLookup(name, cat.(titleRegex2 := other))
  {
  }

  /** When regex1 fails and regex2 matches, the query uses regex2's captures. */
  lemma MultiRegex2Fallback(name: string, cat: Catalog)
    requires cat.titleRegex1(name).None? && cat.titleRegex2(name).Some?
    ensures MultiLookup(name, cat) == TitleQuery(cat.titleRegex2(name).value, cat.predb)
  {
  }

  /** `filename2` is consulted only when `filename1` is empty. */
  lemma Filename2OnlyWithoutFilename1(m: TitleCaptures, row: PreRow)
    requires m.filename1 != ""
    ensures TitleCondition(m, row) <==> row.title == m.title || row.filename == m.title || row.filename == m.filename1
  {
  }

  /** A row found by the title query is the first row that satisfies the condition. */
  lemma TitleQueryFirst(m: TitleCaptures, predb: seq<PreRow>, k: nat)
    requires k < |predb| && TitleCondition(m, predb[k])
    requires forall j | 0 <= j < k :: !TitleCondition(m, predb[j])
    ensures TitleQuery(m, predb) == Some(PreMatch(predb[k].title, predb[k].id))
  {
    var r := FirstIndex(predb, row => TitleCondition(m, row));
    assert r.Some?;
  }
}
