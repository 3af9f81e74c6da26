/**
 * `RouteShow`: the object that holds the database path and the
 * "all or recent" flag, selects the stored runs and, for each run it can
 * label, produces one route image named after the run's date, distance and
 * duration (`generate_routes`).
 *
 * The image itself is drawn by an outside library; a produced image stands
 * here for the file name it is written under and the three labels computed
 * from the record's fields.
 */
module Routes {
  import opened Wrappers
  import opened PyText
  import MovingTime
  import opened Activities

  /** The database path used when none, or an empty one, is given. */
  const DEFAULT_DATABASE: string := "data/data.db"

  /** A record is drawn only when its start date, distance and moving time are all truthy. */
  predicate Renderable(a: Activity) {
    a.startDate != [] && a.distance != 0.0 && a.movingTime != []
  }

  /** The records that `generate_routes` does not skip, in their order. */
  function Kept(rows: seq<Activity>): (r: seq<Activity>)
    ensures |r| <= |rows|
    decreases |rows|
  {
    if rows == [] then []
    else
      var last := rows[|rows| - 1];
      Kept(rows[..|rows| - 1]) + if Renderable(last) then [last] else []
  }

  lemma KeptSingle(a: Activity)
    ensures Kept([a]) == if Renderable(a) then [a] else []
  {
    assert [a][..0] == [];
  }

  lemma KeptStep(rows: seq<Activity>, i: nat)
    requires i < |rows|
    ensures Kept(rows[..i + 1]) == Kept(rows[..i]) + if Renderable(rows[i]) then [rows[i]] else []
  {
    assert rows[..i + 1][..i] == rows[..i];
  }

  /** Skipping works record by record: it distributes over concatenation. */
  lemma {:induction false} KeptAppend(p: seq<Activity>, q: seq<Activity>)
    ensures Kept(p + q) == Kept(p) + Kept(q)
    decreases |q|
  {
    if q == [] {
      assert p + q == p;
    } else {
      var front := q[..|q| - 1];
      assert (p + q)[..|p + q| - 1] == p + front;
      KeptAppend(p, front);
    }
  }

  /** A record is kept exactly when it is one of the rows and is renderable. */
  lemma {:induction false} KeptMembers(rows: seq<Activity>, a: Activity)
    ensures a in Kept(rows) <==> a in rows && Renderable(a)
    decreases |rows|
  {
    if rows != [] {
      var front := rows[..|rows| - 1];
      KeptMembers(front, a);
      assert rows == front + [rows[|rows| - 1]];
    }
  }

  /** `start_date[:16]`: date and time to the minute. */
  function DateLabel(startDate: string): (r: string)
    ensures |startDate| >= 16 ==> r == startDate[..16]
    ensures |startDate| < 16 ==> r == startDate
  {
    Prefix(startDate, 16)
  }

  /** The file name: `start_date[:10]` without dashes, `_`, the distance, `km_`, the duration. */
  function FileStem(startDate: string, distance: string, duration: string): string {
    Remove(Prefix(startDate, 10), '-') + "_" + distance + "km_" + duration
  }

  lemma DigitsHaveNoDash(s: string)
    requires IsDigits(s)
    ensures '-' !in s
  {
    forall k | 0 <= k < |s| ensures s[k] != '-' {
      assert IsDigit(s[k]);
    }
  }

  /** One produced route image: its file name (before `.svg`) and its text labels. */
  datatype RouteFile = RouteFile(name: string, dateText: string, durationText: string, distanceText: string)

  /** The record's moving time is in the modelled domain and converts without error. */
  predicate TimeParses(a: Activity) {
    MovingTime.InDomain(a.movingTime) && MovingTime.FormatRunTime(a.movingTime).Success?
  }

  /** Every record's moving time converts (stated record by record from the back). */
  predicate AllTimesParse(rows: seq<Activity>)
    decreases |rows|
  {
    rows == [] || (AllTimesParse(rows[..|rows| - 1]) && TimeParses(rows[|rows| - 1]))
  }

  lemma AllTimesParseAppend(rows: seq<Activity>, a: Activity)
    requires AllTimesParse(rows) && TimeParses(a)
    ensures AllTimesParse(rows + [a])
  {
    assert (rows + [a])[..|rows|] == rows;
  }

  /**
   * The image for one record. `distanceLabel` stands for
   * `round(distance / 1000, 1)` printed as text.
   */
  function RouteFileOf(a: Activity, distanceLabel: real -> string): RouteFile
    requires TimeParses(a)
  {
    var duration := MovingTime.FormatRunTime(a.movingTime).value;
    var distance := distanceLabel(a.distance);
    RouteFile(FileStem(a.startDate, distance, duration), DateLabel(a.startDate),
              "\U{23F1} " + duration, distance + " \U{516C}\U{91CC}")
  }

  /**
   * For a start date written `YYYY-MM-DD` followed by the time of day, the
   * file name starts with `YYYYMMDD_` and the date label keeps the time to
   * the minute.
   */
  lemma IsoDateLabels(year: string, month: string, day: string, clock: string, distance: string, duration: string)
    requires |year| == 4 && |month| == 2 && |day| == 2 && |clock| >= 6
    requires IsDigits(year) && IsDigits(month) && IsDigits(day)
    ensures var date := year + "-" + month + "-" + day + clock;
      && FileStem(date, distance, duration) == year + month + day + "_" + distance + "km_" + duration
      && DateLabel(date) == year + "-" + month + "-" + day + clock[..6]
  {
    var ymd := year + "-" + month + "-" + day;
    var date := ymd + clock;
    assert date[..10] == ymd;
    assert date[..16] == ymd + clock[..6];
    RemoveAppend(year + "-" + month + "-", day, '-');
    RemoveAppend(year + "-" + month, "-", '-');
    RemoveAppend(year + "-", month, '-');
    RemoveAppend(year, "-", '-');
    assert Remove("-", '-') == Remove([], '-');
    DigitsHaveNoDash(year);
    DigitsHaveNoDash(month);
    DigitsHaveNoDash(day);
    RemoveAbsent(year, '-');
    RemoveAbsent(month, '-');
    RemoveAbsent(day, '-');
    assert Remove(ymd, '-') == year + month + day;
  }

  // As in the moving-time examples, the literals are parameters fixed by
  // `requires`, which keeps their unfolding within the resource limit.

  /**
   * A run that started on 2024-10-11 at 07:00, moved for `0:05:00` and whose
   * distance prints as `1.2` is written as `20241011_1.2km_5mins`.
   */
  lemma RouteFileExample(a: Activity, distanceLabel: real -> string, year: string, month: string, day: string,
                         clock: string, h: string, m: string, s: string)
    requires year == "2024" && month == "10" && day == "11" && clock == "T07:00:00"
    requires h == "0" && m == "05" && s == "00"
    requires a.startDate == year + "-" + month + "-" + day + clock && a.movingTime == h + ":" + m + ":" + s
    requires distanceLabel(a.distance) == "1.2"
    ensures TimeParses(a)
    ensures RouteFileOf(a, distanceLabel) ==
            RouteFile("20241011_1.2km_5mins", "2024-10-11T07:00", "\U{23F1} 5mins", "1.2 \U{516C}\U{91CC}")
  {
    MovingTime.RunTimeMinutesExample(h, m, s);
    ExampleDate(year, month, day, clock);
    IsoDateLabels(year, month, day, clock, "1.2", "5mins");
    RouteFileParts(a, distanceLabel, "5mins");
    StemExample(year, month, day, "1.2", "5mins");
  }

  /** `"2024-10-11T07:00:00"` with distance `5.0` and duration `30mins` is named `20241011_5.0km_30mins`. */
  lemma FileStemExample(year: string, month: string, day: string, clock: string, distance: string, duration: string)
    requires year == "2024" && month == "10" && day == "11" && clock == "T07:00:00"
    requires distance == "5.0" && duration == "30mins"
    ensures FileStem(year + "-" + month + "-" + day + clock, distance, duration) == "20241011_5.0km_30mins"
  {
    ExampleDate(year, month, day, clock);
    IsoDateLabels(year, month, day, clock, distance, duration);
    LongStemExample(year, month, day, distance, duration);
  }

  lemma LongStemExample(year: string, month: string, day: string, distance: string, duration: string)
    requires year == "2024" && month == "10" && day == "11" && distance == "5.0" && duration == "30mins"
    ensures year + month + day + "_" + distance + "km_" + duration == "20241011_5.0km_30mins"
  {
  }

  lemma RouteFileParts(a: Activity, distanceLabel: real -> string, duration: string)
    requires TimeParses(a) && MovingTime.FormatRunTime(a.movingTime).value == duration
    ensures RouteFileOf(a, distanceLabel) ==
            RouteFile(FileStem(a.startDate, distanceLabel(a.distance), duration), DateLabel(a.startDate),
                      "\U{23F1} " + duration, distanceLabel(a.distance) + " \U{516C}\U{91CC}")
  {
  }

  lemma ExampleDate(year: string, month: string, day: string, clock: string)
    requires year == "2024" && month == "10" && day == "11" && clock == "T07:00:00"
    ensures IsDigits(year) && IsDigits(month) && IsDigits(day)
    ensures year + "-" + month + "-" + day + clock[..6] == "2024-10-11T07:00"
  {
    assert clock[..6] == "T07:00";
  }

  lemma StemExample(year: string, month: string, day: string, distance: string, duration: string)
    requires year == "2024" && month == "10" && day == "11" && distance == "1.2" && duration == "5mins"
    ensures year + month + day + "_" + distance + "km_" + duration == "20241011_1.2km_5mins"
    ensures "\U{23F1} " + duration == "\U{23F1} 5mins" && distance + " \U{516C}\U{91CC}" == "1.2 \U{516C}\U{91CC}"
  {
  }

  /** One image per record, in the records' order. */
  function RouteFiles(rows: seq<Activity>, distanceLabel: real -> string): (files: seq<RouteFile>)
    requires AllTimesParse(rows)
    ensures |files| == |rows|
    decreases |rows|
  {
    if rows == [] then []
    else RouteFiles(rows[..|rows| - 1], distanceLabel) + [RouteFileOf(rows[|rows| - 1], distanceLabel)]
  }

  /** The image at each position is the one for the record at that position. */
  lemma {:induction false} RouteFilesAt(rows: seq<Activity>, distanceLabel: real -> string, k: nat)
    requires AllTimesParse(rows)
    requires k < |rows|
    ensures TimeParses(rows[k]) && RouteFiles(rows, distanceLabel)[k] == RouteFileOf(rows[k], distanceLabel)
    decreases |rows|
  {
    if k < |rows| - 1 {
      RouteFilesAt(rows[..|rows| - 1], distanceLabel, k);
      RouteFilesFront(rows, distanceLabel, k);
    } else {
      RouteFilesLast(rows, distanceLabel);
    }
  }

  lemma RouteFilesFront(rows: seq<Activity>, distanceLabel: real -> string, k: nat)
    requires AllTimesParse(rows) && k < |rows| - 1
    requires var front := rows[..|rows| - 1];
      TimeParses(front[k]) && RouteFiles(front, distanceLabel)[k] == RouteFileOf(front[k], distanceLabel)
    ensures TimeParses(rows[k]) && RouteFiles(rows, distanceLabel)[k] == RouteFileOf(rows[k], distanceLabel)
  {
    assert rows[k] == rows[..|rows| - 1][k];
  }

  lemma RouteFilesLast(rows: seq<Activity>, distanceLabel: real -> string)
    requires AllTimesParse(rows) && rows != []
    ensures var n := |rows| - 1;
      TimeParses(rows[n]) && RouteFiles(rows, distanceLabel)[n] == RouteFileOf(rows[n], distanceLabel)
  {
  }

  /** A record appended to the rows appends its image to the images. */
  lemma RouteFilesAppend(rows: seq<Activity>, a: Activity, distanceLabel: real -> string)
    requires AllTimesParse(rows) && TimeParses(a)
    ensures RouteFiles(rows + [a], distanceLabel) == RouteFiles(rows, distanceLabel) + [RouteFileOf(a, distanceLabel)]
  {
    assert (rows + [a])[..|rows|] == rows;
  }

  /** The images written for the first `i` records, as the loop of `generate_routes` keeps them. */
  predicate WrittenUpTo(rows: seq<Activity>, i: nat, files: seq<RouteFile>, distanceLabel: real -> string)
    requires i <= |rows|
  {
    && AllTimesParse(Kept(rows[..i]))
    && files == RouteFiles(Kept(rows[..i]), distanceLabel)
  }

  /** A skipped record adds no image. */
  lemma SkippedStep(rows: seq<Activity>, i: nat, files: seq<RouteFile>, distanceLabel: real -> string)
    requires i < |rows| && !Renderable(rows[i])
    requires WrittenUpTo(rows, i, files, distanceLabel)
    ensures WrittenUpTo(rows, i + 1, files, distanceLabel)
  {
    KeptStep(rows, i);
    assert Kept(rows[..i + 1]) == Kept(rows[..i]);
  }

  /** A drawn record adds its image after the earlier ones. */
  lemma RenderedStep(rows: seq<Activity>, i: nat, files: seq<RouteFile>, distanceLabel: real -> string)
    requires i < |rows| && Renderable(rows[i]) && TimeParses(rows[i])
    requires WrittenUpTo(rows, i, files, distanceLabel)
    ensures WrittenUpTo(rows, i + 1, files + [RouteFileOf(rows[i], distanceLabel)], distanceLabel)
  {
    KeptStep(rows, i);
    AllTimesParseAppend(Kept(rows[..i]), rows[i]);
    RouteFilesAppend(Kept(rows[..i]), rows[i], distanceLabel);
  }

  /** The error that stopped the run and the position of the record that raised it. */
  datatype Halt = Halt(index: nat, error: MovingTime.TimeError)

  class RouteShow {
    /** The SQLite file the session is opened on. */
    const database: string
    const isAll: bool
    /** The rows of the `activities` table, as the session reads them. */
    const table: seq<Activity>

    predicate Valid() {
      && DistinctIds(table)
      && forall a | a in table :: MovingTime.InDomain(a.movingTime)
    }

    constructor (database: Option<string>, isAll: bool, table: seq<Activity>)
      requires DistinctIds(table)
      requires forall a | a in table :: MovingTime.InDomain(a.movingTime)
      ensures Valid()
      ensures this.database == if database.Some? && database.value != [] then database.value else DEFAULT_DATABASE
      ensures this.isAll == isAll && this.table == table
    {
      this.database := if database.Some? && database.value != [] then database.value else DEFAULT_DATABASE;
      this.isAll := isAll;
      this.table := table;
    }

    /** `_get_activities`: every row in no promised order, or the ten latest ones. */
    function GetActivities(): (r: seq<Activity>)
      requires Valid()
      ensures forall a | a in r :: a in table
      ensures isAll ==> multiset(r) == multiset(table)
      ensures !isAll ==> IsLatest(r, table)
    {
      var r := if isAll then table else Latest(table);
      SubMultisetMembers(r, table);
      r
    }

    /**
     * `generate_routes`: one image per selected record that is not skipped,
     * in selection order. A moving time that does not convert raises, which
     * ends the run after the images already written.
     */
    method GenerateRoutes(distanceLabel: real -> string) returns (files: seq<RouteFile>, halt: Option<Halt>)
      requires Valid()
      ensures var selected := GetActivities();
        match halt
        case None =>
          && AllTimesParse(Kept(selected))
          && files == RouteFiles(Kept(selected), distanceLabel)
        case Some(h) =>
          && h.index < |selected|
          && Renderable(selected[h.index])
          && MovingTime.InDomain(selected[h.index].movingTime)
          && MovingTime.FormatRunTime(selected[h.index].movingTime) == Failure(h.error)
          && AllTimesParse(Kept(selected[..h.index]))
          && files == RouteFiles(Kept(selected[..h.index]), distanceLabel)
    {
      var activities := GetActivities();
      files, halt := [], None;
      var i := 0;
      while i < |activities|
        invariant i <= |activities|
        invariant WrittenUpTo(activities, i, files, distanceLabel)
      {
        var row := activities[i];
        if !Renderable(row) {
          SkippedStep(activities, i, files, distanceLabel);
          i := i + 1;
          continue;
        }
        var duration := MovingTime.FormatRunTime(row.movingTime);
        if duration.Failure? {
          halt := Some(Halt(i, duration.error));
          return;
        }
        var distance := distanceLabel(row.distance);
        var file := RouteFile(FileStem(row.startDate, distance, duration.value), DateLabel(row.startDate),
                              "\U{23F1} " + duration.value, distance + " \U{516C}\U{91CC}");
        RenderedStep(activities, i, files, distanceLabel);
        files := files + [file];
        i := i + 1;
      }
      assert activities[..i] == activities;
    }
  }
}
