/**
 * The reference catalog (table `predb`) as this engine reads it, and the two ways
 * the source queries it: `queryOneRow` (the first row satisfying a condition, or
 * `false`) and `queryDirect` (every row satisfying it). Rows come back in table order,
 * which stands for the storage engine's unspecified order of an un-ORDERed SELECT.
 */
module PreDb {
  import opened Wrappers

  /** One predb row: the columns the lookups compare or return (a NULL filename reads as ""). */
  datatype PreRow = PreRow(id: int, title: string, filename: string, requestid: int, groupId: int)

  /** `array('title' => ..., 'id' => ...)`, what every lookup hands back on success. */
  datatype PreMatch = PreMatch(title: string, id: int)

  /** The named groups `title`, `filename1`, `filename2` of a title regex ("" when unset or empty). */
  datatype TitleCaptures = TitleCaptures(title: string, filename1: string, filename2: string)

  /**
   * What the lookups read: the predb table, `Groups::getIDByName`, and the two title
   * regexes of `_multiLookup` (their internal structure is not part of this model).
   */
  datatype Catalog = Catalog(
    predb: seq<PreRow>,
    groupIdOf: string -> int,
    titleRegex1: string -> Option<TitleCaptures>,
    titleRegex2: string -> Option<TitleCaptures>)

  /** The index of the first row satisfying `p`. */
  function FirstIndex(rows: seq<PreRow>, p: PreRow -> bool): (r: Option<nat>)
    ensures r.Some? ==> r.value < |rows| && p(rows[r.value])
    ensures r.Some? ==> forall j | 0 <= j < r.value :: !p(rows[j])
    ensures r.None? ==> forall j | 0 <= j < |rows| :: !p(rows[j])
  {
    if rows == [] then None
    else if p(rows[0]) then Some(0)
    else
      match FirstIndex(rows[1..], p)
      case None => None
      case Some(k) => Some(k + 1)
  }

  /** `queryOneRow`: the first row satisfying the WHERE condition, or None for `false`. */
  function QueryOneRow(rows: seq<PreRow>, p: PreRow -> bool): (r: Option<PreRow>)
    ensures r.Some? ==> r.value in rows && p(r.value)
    ensures r.None? ==> forall row | row in rows :: !p(row)
  {
    match FirstIndex(rows, p)
    case None => None
    case Some(k) => Some(rows[k])
  }

  /** `queryDirect` that succeeds: every row satisfying the WHERE condition, in table order. */
  function Select(rows: seq<PreRow>, p: PreRow -> bool): (r: seq<PreRow>)
    ensures |r| <= |rows|
    ensures forall row | row in r :: row in rows && p(row)
    ensures forall row | row in rows && p(row) :: row in r
  {
    if rows == [] then []
    else if p(rows[0]) then [rows[0]] + Select(rows[1..], p)
    else Select(rows[1..], p)
  }

  /** Two distinct positions satisfying the condition make the result set hold at least two rows. */
  lemma {:induction false} SelectAtLeastTwo(rows: seq<PreRow>, p: PreRow -> bool, i: nat, j: nat)
    requires i < j < |rows|
    requires p(rows[i]) && p(rows[j])
    ensures |Select(rows, p)| >= 2
  {
    if i == 0 {
      assert rows[j] == rows[1..][j - 1];
      assert rows[j] in Select(rows[1..], p);
    } else {
      SelectAtLeastTwo(rows[1..], p, i - 1, j - 1);
    }
  }

  /** No qualifying row: the result set is empty. */
  lemma {:induction false} SelectNone(rows: seq<PreRow>, p: PreRow -> bool)
    requires forall j | 0 <= j < |rows| :: !p(rows[j])
    ensures Select(rows, p) == []
  {
    if rows != [] {
      assert !p(rows[0]);
      forall j | 0 <= j < |rows[1..]| ensures !p(rows[1..][j]) {
        assert rows[1..][j] == rows[j + 1];
      }
      SelectNone(rows[1..], p);
    }
  }

  /** One qualifying position and no other: the result set is exactly that row. */
  lemma {:induction false} SelectOne(rows: seq<PreRow>, p: PreRow -> bool, k: nat)
    requires k < |rows| && p(rows[k])
    requires forall j | 0 <= j < |rows| && j != k :: !p(rows[j])
    ensures Select(rows, p) == [rows[k]]
  {
    if k == 0 {
      forall j | 0 <= j < |rows[1..]| ensures !p(rows[1..][j]) {
        assert rows[1..][j] == rows[j + 1];
      }
      SelectNone(rows[1..], p);
    } else {
      assert !p(rows[0]);
      forall j | 0 <= j < |rows[1..]| && j != k - 1 ensures !p(rows[1..][j]) {
        assert rows[1..][j] == rows[j + 1];
      }
      SelectOne(rows[1..], p, k - 1);
    }
  }
}
