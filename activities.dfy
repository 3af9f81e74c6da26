/**
 * The stored runs and the selection `RouteShow._get_activities` makes of
 * them: the ten runs with the largest ids, newest first, or every run.
 */
module Activities {

  /** One row of the `activities` table. Every column is non-null. */
  datatype Activity = Activity(
    runId: int,              // primary key
    distance: real,          // metres
    movingTime: string,      // "H:MM:SS" or "D days, H:MM:SS"
    startDate: string,       // ISO-like timestamp
    summaryPolyline: string, // encoded route
    averageSpeed: real)      // metres per second

  /** The `LIMIT` of the recent-runs query. */
  const RECENT_LIMIT: nat := 10

  /** A primary key: no two rows share an id. */
  predicate DistinctIds(rows: seq<Activity>) {
    forall i, j | 0 <= i < j < |rows| :: rows[i].runId != rows[j].runId
  }

  /** Ordered by `run_id DESC`, with no ties. */
  predicate StrictlyDescending(rows: seq<Activity>) {
    forall i, j | 0 <= i < j < |rows| :: rows[i].runId > rows[j].runId
  }

  /**
   * What `ORDER BY run_id DESC LIMIT 10` returns, stated without saying how:
   * as many rows as the limit allows, taken from the table, newest first,
   * and none of the rows left out is newer than one taken.
   */
  ghost predicate IsLatest(selected: seq<Activity>, rows: seq<Activity>) {
    && |selected| == (if |rows| < RECENT_LIMIT then |rows| else RECENT_LIMIT)
    && multiset(selected) <= multiset(rows)
    && StrictlyDescending(selected)
    && forall a, b | a in selected && b in rows && b !in selected :: a.runId > b.runId
  }

  /** Inserts a row into a strictly descending sequence at its place. */
  function Insert(x: Activity, sorted: seq<Activity>): (r: seq<Activity>)
    requires StrictlyDescending(sorted)
    requires forall k | 0 <= k < |sorted| :: sorted[k].runId != x.runId
    ensures multiset(r) == multiset(sorted) + multiset{x}
    ensures StrictlyDescending(r)
    decreases |sorted|
  {
    if sorted == [] || sorted[0].runId < x.runId then
      InsertInFront(x, sorted);
      [x] + sorted
    else
      var rest := Insert(x, sorted[1..]);
      InsertBehind(x, sorted, rest);
      [sorted[0]] + rest
  }

  lemma InsertInFront(x: Activity, sorted: seq<Activity>)
    requires StrictlyDescending(sorted)
    requires sorted == [] || sorted[0].runId < x.runId
    ensures StrictlyDescending([x] + sorted)
  {
    var r := [x] + sorted;
    forall i, j | 0 <= i < j < |r| ensures r[i].runId > r[j].runId {
      assert r[j] == sorted[j - 1];
      if i > 0 {
        assert r[i] == sorted[i - 1];
      } else {
        assert j == 1 || sorted[0].runId > sorted[j - 1].runId;
      }
    }
  }

  lemma InsertBehind(x: Activity, sorted: seq<Activity>, rest: seq<Activity>)
    requires StrictlyDescending(sorted) && sorted != [] && sorted[0].runId > x.runId
    requires StrictlyDescending(rest) && multiset(rest) == multiset(sorted[1..]) + multiset{x}
    ensures multiset([sorted[0]] + rest) == multiset(sorted) + multiset{x}
    ensures StrictlyDescending([sorted[0]] + rest)
  {
    assert sorted == [sorted[0]] + sorted[1..];
    var r := [sorted[0]] + rest;
    forall i, j | 0 <= i < j < |r| ensures r[i].runId > r[j].runId {
      assert r[j] == rest[j - 1];
      if i > 0 {
        assert r[i] == rest[i - 1];
      } else {
        var a := rest[j - 1];
        assert a in multiset(rest);
        if a != x {
          assert a in multiset(sorted[1..]);
          var k :| 0 <= k < |sorted[1..]| && sorted[1..][k] == a;
          assert sorted[k + 1] == a;
        }
      }
    }
  }

  /** The rows ordered by descending id. */
  function SortDescending(rows: seq<Activity>): (r: seq<Activity>)
    requires DistinctIds(rows)
    ensures multiset(r) == multiset(rows)
    ensures StrictlyDescending(r)
  {
    if rows == [] then []
    else
      var rest := SortDescending(rows[1..]);
      NewIdAmongRest(rows, rest);
      Insert(rows[0], rest)
  }

  /** The first row's id occurs nowhere in an arrangement of the other rows. */
  lemma NewIdAmongRest(rows: seq<Activity>, rest: seq<Activity>)
    requires DistinctIds(rows) && rows != []
    requires multiset(rest) == multiset(rows[1..])
    ensures DistinctIds(rows[1..])
    ensures multiset(rows) == multiset(rest) + multiset{rows[0]}
    ensures forall k | 0 <= k < |rest| :: rest[k].runId != rows[0].runId
  {
    assert rows == [rows[0]] + rows[1..];
    forall k | 0 <= k < |rest| ensures rest[k].runId != rows[0].runId {
      assert rest[k] in multiset(rows[1..]);
      var j :| 0 <= j < |rows[1..]| && rows[1..][j] == rest[k];
      assert rows[j + 1] == rest[k];
    }
  }

  /** The recent-runs query: the ten largest ids, in descending order. */
  function Latest(rows: seq<Activity>): (r: seq<Activity>)
    requires DistinctIds(rows)
    ensures IsLatest(r, rows)
  {
    var sorted := SortDescending(rows);
    var n := if |rows| < RECENT_LIMIT then |rows| else RECENT_LIMIT;
    PrefixIsLatest(sorted, rows, n);
    sorted[..n]
  }

  lemma SubMultisetMembers(r: seq<Activity>, rows: seq<Activity>)
    requires multiset(r) <= multiset(rows)
    ensures forall a | a in r :: a in rows
  {
    forall a | a in r ensures a in rows {
      assert a in multiset(r);
    }
  }

  /** The first rows of a descending arrangement of the table are its latest ones. */
  lemma PrefixIsLatest(sorted: seq<Activity>, rows: seq<Activity>, n: nat)
    requires multiset(sorted) == multiset(rows) && StrictlyDescending(sorted)
    requires n == if |rows| < RECENT_LIMIT then |rows| else RECENT_LIMIT
    ensures n <= |sorted| && IsLatest(sorted[..n], rows)
  {
    assert |sorted| == |rows| by {
      assert |multiset(sorted)| == |multiset(rows)|;
    }
    var r := sorted[..n];
    assert sorted == r + sorted[n..];
    forall a, b | a in r && b in rows && b !in r ensures a.runId > b.runId {
      var i :| 0 <= i < n && r[i] == a;
      assert b in multiset(sorted);
      var j :| 0 <= j < |sorted| && sorted[j] == b;
      assert j >= n;
    }
  }
}
