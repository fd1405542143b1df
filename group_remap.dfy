/**
 * `_singleAltLookup`: a fixed first-match-wins table that, when the posted group is
 * known to be unreliable, names the group the release really belongs to; predb is then
 * asked for the request ID under that group.
 */
module GroupRemap {
  import opened Wrappers
  import opened Text
  import opened PreDb

  /** A rule's test: the group name is exactly `group`, or the release name contains `needle`. */
  datatype Test = GroupIs(group: string) | NameHas(needle: string)

  datatype RemapRule = RemapRule(test: Test, target: string)

  /** The `switch (true)` of `_singleAltLookup`, in its order. */
  function RemapTable(): seq<RemapRule> {
    [ RemapRule(GroupIs("alt.binaries.etc"), "alt.binaries.teevee"),
      RemapRule(NameHas("teevee"), "alt.binaries.teevee"),
      RemapRule(NameHas("moovee"), "alt.binaries.moovee"),
      RemapRule(NameHas("erotica"), "alt.binaries.erotica"),
      RemapRule(NameHas("foreign"), "alt.binaries.mom"),
      RemapRule(NameHas("inner-sanctum"), "alt.binaries.inner-sanctum"),
      RemapRule(NameHas("sounds.flac"), "alt.binaries.sounds.flac"),
      RemapRule(NameHas("scnzb"), "alt.binaries.boneless"),
      RemapRule(NameHas("hdtv.x264"), "alt.binaries.hdtv.x264") ]
  }

  /** `$groupName == '...'` or `strpos($oldName, '...') !== false`. */
  predicate Fires(t: Test, group: string, name: string) {
    match t
    case GroupIs(g) => group == g
    case NameHas(needle) => Contains(name, needle)
  }

  /** The index of the first rule that fires. */
  function FirstFiring(rules: seq<RemapRule>, group: string, name: string): (r: Option<nat>)
    ensures r.Some? ==> r.value < |rules| && Fires(rules[r.value].test, group, name)
    ensures r.Some? ==> forall j | 0 <= j < r.value :: !Fires(rules[j].test, group, name)
    ensures r.None? ==> forall j | 0 <= j < |rules| :: !Fires(rules[j].test, group, name)
  {
    if rules == [] then None
    else if Fires(rules[0].test, group, name) then Some(0)
    else
      match FirstFiring(rules[1..], group, name)
      case None => None
      case Some(k) => Some(k + 1)
  }

  /** The alternate group, or None (`return false`) when no rule applies. */
  function Remap(group: string, name: string): (r: Option<string>)
    ensures r.Some? <==> exists k | 0 <= k < |RemapTable()| :: Fires(RemapTable()[k].test, group, name)
  {
    match FirstFiring(RemapTable(), group, name)
    case None => None
    case Some(k) => Some(RemapTable()[k].target)
  }

  /**
   * `_singleAltLookup($requestID, $groupName, $oldName)`: predb's first row with that request
   * ID under the alternate group's id; no query when no rule applies.
   */
  function SingleAltLookup(requestId: int, group: string, name: string, cat: Catalog): (r: Option<PreMatch>)
    ensures r.Some? ==> Remap(group, name).Some?
    ensures r.Some? ==> exists row | row in cat.predb ::
                          && row.requestid == requestId
                          && row.groupId == cat.groupIdOf(Remap(group, name).value)
                          && r.value == PreMatch(row.title, row.id)
    ensures Remap(group, name).Some?
              && (exists row | row in cat.predb ::
                    row.requestid == requestId && row.groupId == cat.groupIdOf(Remap(group, name).value))
            ==> r.Some?
  {
    match Remap(group, name)
    case None => None
    case Some(alt) =>
      var gid := cat.groupIdOf(alt);
      match QueryOneRow(cat.predb, (row: PreRow) => row.requestid == requestId && row.groupId == gid)
      case None => None
      case Some(row) => Some(PreMatch(row.title, row.id))
  }

  /** A result is a rule's target exactly when that rule fires and no earlier rule does. */
  lemma RemapFirstMatchWins(group: string, name: string, k: nat)
    requires k < |RemapTable()|
    requires Fires(RemapTable()[k].test, group, name)
    requires forall j | 0 <= j < k :: !Fires(RemapTable()[j].test, group, name)
    ensures Remap(group, name) == Some(RemapTable()[k].target)
  {
    var r := FirstFiring(RemapTable(), group, name);
    assert r.Some?;
  }

  /** Group `alt.binaries.etc` maps to teevee whatever the release name says. */
  lemma RemapEtcIsTeevee(name: string)
    ensures Remap("alt.binaries.etc", name) == Some("alt.binaries.teevee")
  {
    RemapFirstMatchWins("alt.binaries.etc", name, 0);
  }

  /** A name containing `teevee` maps to teevee even when it also contains `moovee`, etc. */
  lemma RemapTeeveeBeforeOthers(group: string, name: string)
    requires Contains(name, "teevee")
    ensures Remap(group, name) == Some("alt.binaries.teevee")
  {
    if group == "alt.binaries.etc" {
      RemapFirstMatchWins(group, name, 0);
    } else {
      RemapFirstMatchWins(group, name, 1);
    }
  }

  /**
   * With a rule firing, the alternate lookup finds the request ID exactly when predb has a
   * row with that request ID under the alternate group's id.
   */
  lemma AltFindsRow(requestId: int, group: string, name: string, cat: Catalog, k: nat)
    requires Remap(group, name).Some?
    requires k < |cat.predb|
    requires cat.predb[k].requestid == requestId && cat.predb[k].groupId == cat.groupIdOf(Remap(group, name).value)
    ensures SingleAltLookup(requestId, group, name, cat).Some?
  {
    assert cat.predb[k] in cat.predb;
  }

  /** The first predb row with the request ID under the alternate group's id is the one returned. */
  lemma AltFirstRow(requestId: int, group: string, name: string, cat: Catalog, k: nat)
    requires Remap(group, name).Some?
    requires k < |cat.predb|
    requires cat.predb[k].requestid == requestId && cat.predb[k].groupId == cat.groupIdOf(Remap(group, name).value)
    requires forall j | 0 <= j < k ::
               !(cat.predb[j].requestid == requestId && cat.predb[j].groupId == cat.groupIdOf(Remap(group, name).value))
    ensures SingleAltLookup(requestId, group, name, cat) == Some(PreMatch(cat.predb[k].title, cat.predb[k].id))
  {
    var gid := cat.groupIdOf(Remap(group, name).value);
    var r := FirstIndex(cat.predb, (row: PreRow) => row.requestid == requestId && row.groupId == gid);
    assert r.Some?;
    assert !(r.value < k) && !(r.value > k);
  }

  /**
   * The substring tests are case-sensitive: every needle starts with a lower-case letter,
   * so a name without lower-case letters fires no substring rule.
   */
  lemma RemapCaseSensitive(group: string, name: string)
    requires group != "alt.binaries.etc"
    requires forall k | 0 <= k < |name| :: !('a' <= name[k] <= 'z')
    ensures Remap(group, name) == None
  {
    NoNeedleFires(group, name);
    assert !Fires(RemapTable()[0].test, group, name);
  }

  lemma NoNeedleFires(group: string, name: string)
    requires forall k | 0 <= k < |name| :: !('a' <= name[k] <= 'z')
    ensures forall k | 1 <= k < |RemapTable()| :: !Fires(RemapTable()[k].test, group, name)
  {
    forall k | 1 <= k < |RemapTable()|
      ensures !Fires(RemapTable()[k].test, group, name)
    {
      var needle := RemapTable()[k].test.needle;
      assert |needle| > 0 && 'a' <= needle[0] <= 'z';
      NoLowerNoNeedle(name, needle);
    }
  }

  /** A needle starting with a lower-case letter occurs in no name without lower-case letters. */
  lemma NoLowerNoNeedle(name: string, needle: string)
    requires |needle| > 0 && 'a' <= needle[0] <= 'z'
    requires forall k | 0 <= k < |name| :: !('a' <= name[k] <= 'z')
    ensures !Contains(name, needle)
  {
    forall j | 0 <= j <= |name| - |needle| ensures !LitAt(name, j, needle) {
      if LitAt(name, j, needle) {
        LitAtHead(name, j, needle);
      }
    }
  }

  /** No rule applying means `false` with no query: the result is None for every predb. */
  lemma AltNoRuleNoQuery(requestId: int, group: string, name: string, cat: Catalog)
    requires Remap(group, name).None?
    ensures SingleAltLookup(requestId, group, name, cat) == None
  {
  }
}
