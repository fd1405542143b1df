/**
 * `_buildWorkQuery`: which release rows a run revisits, in which order, and what the
 * batch query returns for each (`r.id, r.name, r.categoryid, r.reqidstatus`, the group's
 * name and id through the LEFT JOIN on groups).
 */
module WorkQuery {
  import opened Wrappers
  import opened Status
  import opened Releases

  /** `$argv[1]`: `all`, `full`, or anything else, read as the LIMIT of the newest-first mode. */
  datatype Mode = All | Full | Latest(limit: int)

  /** The mode and `$argv[2]`, `$argv[3]` as integers when `is_numeric` holds of them. */
  datatype RunArgs = RunArgs(mode: Mode, arg2: Option<int>, arg3: Option<int>)

  /** The hour window: `$argv[2]` when numeric, else `$argv[3]` when numeric, else none. */
  function WindowHours(args: RunArgs): Option<int> {
    if args.arg2.Some? then args.arg2 else args.arg3
  }

  /** `r.postdate > NOW() - INTERVAL h HOUR`, with the clock `now` and `postdate` in seconds. */
  predicate Recent(window: Option<int>, now: int, r: Release) {
    window.Some? && r.postdate > now - window.value * 3600
  }

  /** `reqidstatus in (REQID_UPROC, REQID_NOLL, REQID_NONE)`. */
  predicate Retryable(status: int) {
    status == REQID_UPROC || status == REQID_NOLL || status == REQID_NONE
  }

  /** `$argv[2]` wins over `$argv[3]`, and with neither numeric there is no window. */
  lemma WindowPrecedence(m: Mode, arg2: Option<int>, arg3: Option<int>)
    ensures arg2.Some? ==> WindowHours(RunArgs(m, arg2, arg3)) == arg2
    ensures arg2.None? ==> WindowHours(RunArgs(m, arg2, arg3)) == arg3
    ensures WindowHours(RunArgs(m, arg2, arg3)).None? <==> arg2.None? && arg3.None?
  {
  }

  /** No window admits no row, and a wider window admits every row a narrower one does. */
  lemma RecentWidens(h: int, h': int, now: int, r: Release)
    requires h <= h'
    ensures !Recent(None, now, r)
    ensures Recent(Some(h), now, r) ==> Recent(Some(h'), now, r)
  {
  }

  /** The three retried statuses are exactly `REQID_UPROC`, `REQID_NOLL` and `REQID_NONE`. */
  lemma RetryableStatuses(status: int)
    ensures Retryable(status) <==> status in {REQID_UPROC, REQID_NOLL, REQID_NONE}
    ensures !Retryable(REQID_FOUND) && !Retryable(REQID_ZERO) && !Retryable(REQID_OLD)
  {
  }

  /**
   * The WHERE predicate. In `full` and the numeric mode the window is spliced in as
   * `(isrenamed = 0 AND isrequestid = 1 OR r.postdate > ...)`, where AND binds tighter.
   */
  predicate Eligible(args: RunArgs, now: int, r: Release) {
    match args.mode
    case All => r.nzbstatus == 1 && r.preid == 0 && r.isrequestid == 1
    case _ =>
      && r.nzbstatus == 1 && r.preid == 0
      && ((r.isrenamed == 0 && r.isrequestid == 1) || Recent(WindowHours(args), now, r))
      && Retryable(r.reqidstatus)
  }

  /** The eligible rows in table order. */
  function Eligibles(rows: seq<Release>, args: RunArgs, now: int): (r: seq<Release>)
    ensures |r| <= |rows|
    ensures forall x | x in r :: x in rows && Eligible(args, now, x)
    ensures forall x | x in rows && Eligible(args, now, x) :: x in r
    ensures UniqueIds(rows) ==> UniqueIds(r)
  {
    if rows == [] then []
    else
      var rest := Eligibles(rows[1..], args, now);
      assert UniqueIds(rows) ==> forall x | x in rest :: x.id != rows[0].id by {
        if UniqueIds(rows) {
          forall x | x in rest ensures x.id != rows[0].id {
            var m :| 0 <= m < |rows[1..]| && rows[1..][m] == x;
            assert rows[m + 1] == x;
          }
        }
      }
      if Eligible(args, now, rows[0]) then [rows[0]] + rest else rest
  }

  /** `ORDER BY postdate DESC`. */
  ghost predicate NewestFirst(s: seq<Release>) {
    forall i, j | 0 <= i < j < |s| :: s[i].postdate >= s[j].postdate
  }

  /** Inserts `x` before the first row that is not newer than it. */
  function InsertByPostdate(x: Release, s: seq<Release>): (r: seq<Release>)
    ensures |r| == |s| + 1
  {
    if s == [] || x.postdate >= s[0].postdate then [x] + s
    else [s[0]] + InsertByPostdate(x, s[1..])
  }

  /** Rows sorted newest first (ties in table order). */
  function SortByPostdate(s: seq<Release>): (r: seq<Release>)
    ensures |r| == |s|
  {
    if s == [] then [] else InsertByPostdate(s[0], SortByPostdate(s[1..]))
  }

  lemma {:induction false} InsertPermutes(x: Release, s: seq<Release>)
    ensures multiset(InsertByPostdate(x, s)) == multiset(s) + multiset{x}
    decreases |s|
  {
    if s != [] && x.postdate < s[0].postdate {
      InsertPermutes(x, s[1..]);
      assert s == [s[0]] + s[1..];
    }
  }

  /** Every row of an insertion is the inserted row or a row of the sequence. */
  lemma InsertMembers(x: Release, s: seq<Release>)
    ensures forall y | y in InsertByPostdate(x, s) :: y == x || y in s
  {
    var r := InsertByPostdate(x, s);
    InsertPermutes(x, s);
    forall y | y in r ensures y == x || y in s {
      assert y in multiset(r);
    }
  }

  /** The head of a newest-first sequence is at least as new as every row in it. */
  lemma HeadIsNewest(s: seq<Release>)
    requires NewestFirst(s) && s != []
    ensures forall y | y in s :: y.postdate <= s[0].postdate
  {
    forall y | y in s ensures y.postdate <= s[0].postdate {
      var m :| 0 <= m < |s| && s[m] == y;
      if m > 0 { assert s[0].postdate >= s[m].postdate; }
    }
  }

  /** A row no older than any row of a newest-first sequence can go in front of it. */
  lemma ConsNewestFirst(y: Release, t: seq<Release>)
    requires NewestFirst(t)
    requires forall z | z in t :: z.postdate <= y.postdate
    ensures NewestFirst([y] + t)
  {
    var r := [y] + t;
    forall i, j | 0 <= i < j < |r| ensures r[i].postdate >= r[j].postdate {
      assert r[j] == t[j - 1];
      if i > 0 { assert r[i] == t[i - 1]; }
    }
  }

  lemma {:induction false} InsertNewestFirst(x: Release, s: seq<Release>)
    requires NewestFirst(s)
    ensures NewestFirst(InsertByPostdate(x, s))
    decreases |s|
  {
    if s == [] {
      ConsNewestFirst(x, s);
    } else if x.postdate >= s[0].postdate {
      HeadIsNewest(s);
      ConsNewestFirst(x, s);
    } else {
      var rest := InsertByPostdate(x, s[1..]);
      assert NewestFirst(s[1..]) by {
        forall i, j | 0 <= i < j < |s[1..]| ensures s[1..][i].postdate >= s[1..][j].postdate {
          assert s[1..][i] == s[i + 1] && s[1..][j] == s[j + 1];
        }
      }
      InsertNewestFirst(x, s[1..]);
      InsertMembers(x, s[1..]);
      HeadIsNewest(s);
      assert forall y | y in s[1..] :: y in s;
      ConsNewestFirst(s[0], rest);
    }
  }

  /** The sort is a permutation of its input and puts newer rows first. */
  lemma {:induction false} SortIsNewestFirstPermutation(s: seq<Release>)
    ensures multiset(SortByPostdate(s)) == multiset(s)
    ensures NewestFirst(SortByPostdate(s))
    decreases |s|
  {
    if s != [] {
      SortIsNewestFirstPermutation(s[1..]);
      InsertPermutes(s[0], SortByPostdate(s[1..]));
      InsertNewestFirst(s[0], SortByPostdate(s[1..]));
      assert s == [s[0]] + s[1..];
    }
  }

  lemma {:induction false} InsertKeepsIds(x: Release, s: seq<Release>)
    requires UniqueIds(s)
    requires forall y | y in s :: y.id != x.id
    ensures UniqueIds(InsertByPostdate(x, s))
    decreases |s|
  {
    if s != [] && x.postdate < s[0].postdate {
      assert forall y | y in s[1..] :: y in s;
      InsertKeepsIds(x, s[1..]);
      var rest := InsertByPostdate(x, s[1..]);
      InsertPermutes(x, s[1..]);
      forall y | y in rest ensures y.id != s[0].id {
        assert y in multiset(rest);
        if y != x {
          var m :| 0 <= m < |s[1..]| && s[1..][m] == y;
          assert s[m + 1] == y;
        }
      }
    }
  }

  lemma {:induction false} SortKeepsIds(s: seq<Release>)
    requires UniqueIds(s)
    ensures UniqueIds(SortByPostdate(s))
    decreases |s|
  {
    if s != [] {
      SortKeepsIds(s[1..]);
      var rest := SortByPostdate(s[1..]);
      SortIsNewestFirstPermutation(s[1..]);
      forall y | y in rest ensures y.id != s[0].id {
        assert y in multiset(rest);
        var m :| 0 <= m < |s[1..]| && s[1..][m] == y;
        assert s[m + 1] == y;
      }
      InsertKeepsIds(s[0], rest);
    }
  }

  /**
   * The rows the batch query returns: the eligible rows in table order for `all` and
   * `full`; the newest `n` for the numeric mode; none for a negative LIMIT, which makes
   * the SQL malformed, so `queryDirect` returns `false` and there is no work.
   */
  function SelectedReleases(rows: seq<Release>, args: RunArgs, now: int): seq<Release> {
    var e := Eligibles(rows, args, now);
    match args.mode
    case Latest(n) =>
      if n < 0 then []
      else
        var sorted := SortByPostdate(e);
        sorted[..if n <= |sorted| then n else |sorted|]
    case _ => e
  }

  /** One row of the batch query's result. */
  datatype WorkRow = WorkRow(id: int, name: string, categoryid: int, reqidstatus: int, groupname: string, gid: int)

  /** The projection of a release row through the LEFT JOIN (a missing group's name reads as ""). */
  function WorkOf(r: Release, groups: map<int, string>): WorkRow {
    WorkRow(r.id, r.name, r.categoryid, r.reqidstatus, if r.groupId in groups then groups[r.groupId] else "", r.groupId)
  }

  /** The result of the batch query. */
  function Selection(rows: seq<Release>, groups: map<int, string>, args: RunArgs, now: int): (work: seq<WorkRow>)
    ensures |work| == |SelectedReleases(rows, args, now)|
  {
    var s := SelectedReleases(rows, args, now);
    seq(|s|, k requires 0 <= k < |s| => WorkOf(s[k], groups))
  }

  /** Every selected row is an eligible row of the table, and the ids of the selection are distinct. */
  lemma SelectionSound(rows: seq<Release>, args: RunArgs, now: int)
    ensures forall x | x in SelectedReleases(rows, args, now) :: x in rows && Eligible(args, now, x)
    ensures UniqueIds(rows) ==> UniqueIds(SelectedReleases(rows, args, now))
  {
    var e := Eligibles(rows, args, now);
    if args.mode.Latest? && args.mode.limit >= 0 {
      var sorted := SortByPostdate(e);
      SortMembers(e);
      if UniqueIds(rows) { SortKeepsIds(e); }
      var n := if args.mode.limit <= |sorted| then args.mode.limit else |sorted|;
      PrefixKeeps(sorted, n);
    }
  }

  /** The sorted rows are rows of the input. */
  lemma SortMembers(s: seq<Release>)
    ensures forall x | x in SortByPostdate(s) :: x in s
  {
    SortIsNewestFirstPermutation(s);
    forall x | x in SortByPostdate(s) ensures x in s {
      assert x in multiset(SortByPostdate(s));
    }
  }

  /** A prefix keeps membership in and uniqueness of the sequence it is taken from. */
  lemma PrefixKeeps(s: seq<Release>, n: nat)
    requires n <= |s|
    ensures forall x | x in s[..n] :: x in s
    ensures UniqueIds(s) ==> UniqueIds(s[..n])
  {
  }

  /** `all` and `full` select every eligible row. */
  lemma SelectionComplete(rows: seq<Release>, args: RunArgs, now: int)
    requires !args.mode.Latest?
    ensures forall x | x in rows && Eligible(args, now, x) :: x in SelectedReleases(rows, args, now)
  {
  }

  /**
   * The numeric mode returns at most `n` rows, newest first, and they are the newest:
   * no eligible row left out is more recent than a row returned.
   */
  lemma LatestIsNewest(rows: seq<Release>, args: RunArgs, now: int)
    requires args.mode.Latest? && args.mode.limit >= 0
    ensures var s := SelectedReleases(rows, args, now);
            && |s| <= args.mode.limit
            && |s| == (if args.mode.limit <= |Eligibles(rows, args, now)| then args.mode.limit else |Eligibles(rows, args, now)|)
            && NewestFirst(s)
            && forall x, k | x in rows && Eligible(args, now, x) && x !in s && 0 <= k < |s| :: x.postdate <= s[k].postdate
  {
    var e := Eligibles(rows, args, now);
    var sorted := SortByPostdate(e);
    var n := if args.mode.limit <= |sorted| then args.mode.limit else |sorted|;
    assert sorted[..n] == SelectedReleases(rows, args, now);
    SortNewestFirstPrefix(e, n);
    LatestTopN(rows, args, now);
  }

  /** Every prefix of the sorted rows is newest first. */
  lemma SortNewestFirstPrefix(e: seq<Release>, n: nat)
    requires n <= |e|
    ensures |SortByPostdate(e)[..n]| == n
    ensures NewestFirst(SortByPostdate(e)[..n])
  {
    SortIsNewestFirstPermutation(e);
    var s := SortByPostdate(e);
    forall i, j | 0 <= i < j < n ensures s[..n][i].postdate >= s[..n][j].postdate {
      assert s[..n][i] == s[i] && s[..n][j] == s[j];
    }
  }

  /** The top-`n` half of `LatestIsNewest`: no eligible row left out is newer than one returned. */
  lemma LatestTopN(rows: seq<Release>, args: RunArgs, now: int)
    requires args.mode.Latest? && args.mode.limit >= 0
    ensures var s := SelectedReleases(rows, args, now);
            forall x, k | x in rows && Eligible(args, now, x) && x !in s && 0 <= k < |s| :: x.postdate <= s[k].postdate
  {
    var e := Eligibles(rows, args, now);
    var sorted := SortByPostdate(e);
    SortIsNewestFirstPermutation(e);
    var n := if args.mode.limit <= |sorted| then args.mode.limit else |sorted|;
    var s := sorted[..n];
    assert s == SelectedReleases(rows, args, now);
    forall x | x in rows && Eligible(args, now, x) && x !in s
      ensures forall k | 0 <= k < |s| :: x.postdate <= s[k].postdate
    {
      assert x in multiset(sorted);
      LeftOutNotNewer(sorted, n, x);
    }
  }

  /** In a newest-first sequence, a row outside the first `n` is no newer than any of them. */
  lemma LeftOutNotNewer(sorted: seq<Release>, n: nat, x: Release)
    requires NewestFirst(sorted) && n <= |sorted|
    requires x in sorted && x !in sorted[..n]
    ensures forall k | 0 <= k < n :: x.postdate <= sorted[..n][k].postdate
  {
    var m :| 0 <= m < |sorted| && sorted[m] == x;
  }

  /** `full` and the numeric mode never select a row with `preid` set or a status outside {0, -1, -3}. */
  lemma RetryModesSkipSettled(args: RunArgs, now: int, r: Release)
    requires !args.mode.All?
    requires r.preid != 0 || !Retryable(r.reqidstatus)
    ensures !Eligible(args, now, r)
  {
  }

  /** No mode selects a row whose `preid` is set. */
  lemma MatchedNeverSelected(args: RunArgs, now: int, r: Release)
    requires r.preid != 0
    ensures !Eligible(args, now, r)
  {
  }
}
