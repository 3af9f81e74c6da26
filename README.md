# route_show in Dafny

`route_show` reads stored runs from the `activities` table of a SQLite
database and writes one SVG picture per run. The picture shows the run's
route, its start date, its duration and its distance. This project models
the rules around each stored run:

- parsing the stored moving time (`convert_moving_time_to_sec`);
- the coarse run-time label (`format_run_time`);
- which records are selected (`RouteShow._get_activities`): the ten with the
  largest `run_id`, newest first, or all of them;
- the loop of `RouteShow.generate_routes`. It skips incomplete records and
  computes each picture's date label, duration and distance texts and file
  name.

Files:

- `wrappers.dfy`: `Option` and `Result`.
- `py_text.dfy` (module `PyText`): the Python string operations the core
  uses. These are `str.split(sep)`, `str.split()`, `int()` on a decimal
  literal, `str()` of a natural number, slicing `s[:n]` and
  `s.replace(c, "")`.
- `moving_time.dfy` (module `MovingTime`): the conversion of a moving time to
  seconds and the run-time label. The `ValueError`s are modelled as a
  `Result` failure.
- `activities.dfy` (module `Activities`): the `Activity` record and the
  "latest ten" selection. Its reference definition is `IsLatest`.
- `route_show.dfy` (module `Routes`): the skip rule, the labels, the file
  name, and the class `RouteShow` with its constructor, `GetActivities` and
  the `GenerateRoutes` loop.

The database is a parameter: the constructor receives the table's rows. What
`generate_routes` writes is modelled as the list of `RouteFile` records it
would write, in order. Each record holds the file name (without `.svg`) and
the three texts. When `format_run_time` raises, the loop stops. The method
then returns the pictures written so far and a `Halt` naming the record and
the error.

The distance text `round(distance / 1000, 1)` is floating-point printing. It
is the parameter `distanceLabel: real -> string`.

In "all" mode there is no `order_by` in the code (route_show/route_show.py:75).
Every record is returned, but no order is promised. The model promises only
a permutation of the table.

## Model

| member | source | states |
|---|---|---|
| MovingTime.Unpack | route_show/route_show.py:49 | `h, m, s = map(int, fields)` succeeds exactly when there are three fields and each is an integer literal. The clock then holds their values. A count error implies the count is too small or too large. A bad literal among the first four fields is reported before any count error. |
| MovingTime.EmptyIsZero | route_show/route_show.py:44-45 | An empty moving time is 0 seconds. |
| MovingTime.ConversionSucceeds | route_show/route_show.py:47-50 | A non-empty moving time converts exactly when its time part splits on `:` into three integer literals. The result is then `(H*60+M)*60+S`. |
| MovingTime.ClockValue | route_show/route_show.py:47-51 | A single token `H:MM:SS` of digit fields gives `(H*60+M)*60+S`. |
| MovingTime.ClockSeconds | route_show/route_show.py:49-51 | A time text without spaces that splits into three digit fields gives their clock total. |
| MovingTime.UnpackDigits | route_show/route_show.py:49 | Three digit fields unpack to their decimal values. |
| MovingTime.ClockText | route_show/route_show.py:47-49 | `H:MM:SS` is a single token, contains no `.`, and splits on `:` into its three fields. |
| MovingTime.ClockExample | route_show/route_show.py:47-51 | `"1:02:03"` is 3723 seconds. |
| MovingTime.CutAtDot | route_show/route_show.py:48 | Cutting `t` or `t.frac` at its first `.` gives `t`. |
| MovingTime.LastTokenCounts | route_show/route_show.py:47-48 | With words before the last token, only the last token cut at `.` counts. |
| MovingTime.SameTimeText | route_show/route_show.py:48-50 | Two moving times with the same time part convert to the same result. |
| MovingTime.DaysDiscarded | route_show/route_show.py:46-50 | `"D days, t"` converts like `t`. |
| MovingTime.FractionDiscarded | route_show/route_show.py:46-50 | `"D days, t.frac"` converts like `t`. |
| MovingTime.DaysExample | route_show/route_show.py:46-50 | `"2 days, 1:02:03"` is 3723 seconds. |
| MovingTime.DaysFractionExample | route_show/route_show.py:46-50 | `"2 days, 1:02:03.9"` is 3723 seconds. |
| MovingTime.SingleTokenFractionFails | route_show/route_show.py:47-49 | A single token containing a `.`, such as `"1:02:03.5"`, fails to convert. |
| MovingTime.RunTimeLabelRoundTrip | route_show/route_show.py:56-60 | Reading a label back gives the seconds below one minute. From one minute on it gives the whole minutes, with the seconds dropped. |
| MovingTime.RunTimeLabelsAgree | route_show/route_show.py:56-60 | Two totals get the same label exactly when both are the same number of seconds below a minute, or both have the same whole minutes. |
| MovingTime.FormatRunTimeReads | route_show/route_show.py:54-60 | `format_run_time` fails exactly when the conversion fails, with the same error. Otherwise its label shows the converted total. |
| MovingTime.RunTimeSecondsExample | route_show/route_show.py:54-60 | `"0:00:45"` is labelled `"45s"`. |
| MovingTime.RunTimeMinutesExample | route_show/route_show.py:54-60 | `"0:05:00"` is labelled `"5mins"`. |
| PyText.Split | route_show/route_show.py:48-49 | `str.split(sep)` returns at least one piece, and no piece contains the separator. |
| PyText.SplitThenJoin | route_show/route_show.py:48-49 | Joining the pieces of `s.split(sep)` with `sep` gives back `s`. |
| PyText.JoinThenSplit | route_show/route_show.py:48-49 | Splitting a join of pieces that contain no separator gives back the pieces. |
| PyText.SplitAround | route_show/route_show.py:49 | Splitting `a + sep + b` gives the pieces of `a` followed by the pieces of `b`. |
| PyText.AppendToken | route_show/route_show.py:47 | `(a + " " + t).split()` is `a.split()` followed by `t`, for a token `t`. |
| PyText.SomeToken | route_show/route_show.py:47-48 | A string with a non-space character has at least one token. |
| PyText.StripDigits | route_show/route_show.py:49 | `int()` ignores surrounding spaces; stripping a digit string leaves it unchanged. |
| PyText.NotIntLiteral | route_show/route_show.py:49 | A field containing a character other than a digit or a space is not an integer literal. |
| PyText.NatToString | route_show/route_show.py:59-60 | `str(n)` is a non-empty digit string, with a leading `0` only for zero. |
| PyText.NatToStringRoundTrip | route_show/route_show.py:59-60 | Reading `str(n)` as a decimal gives back `n`. |
| PyText.NatToStringInjective | route_show/route_show.py:59-60 | Different numbers print differently. |
| PyText.Prefix | route_show/route_show.py:93 | `s[:n]` is the first `min(n, len(s))` characters of `s`. |
| PyText.Remove | route_show/route_show.py:124 | `s.replace(c, "")` contains no `c` and keeps every other character with its count. |
| PyText.RemoveAppend | route_show/route_show.py:124 | Removing a character works piece by piece over a concatenation. |
| PyText.RemoveAbsent | route_show/route_show.py:124 | Removing a character absent from `s` leaves `s` unchanged. |
| Activities.Insert | route_show/route_show.py:78 | Inserting a row with a new id into a strictly descending sequence keeps it strictly descending and adds exactly that row. |
| Activities.SortDescending | route_show/route_show.py:78 | `order_by(run_id.desc())` is a permutation of the rows, strictly descending by id. |
| Activities.Latest | route_show/route_show.py:76-81 | The recent query returns `min(10, n)` rows. They are strictly descending by id, they are drawn from the table, and every returned id is larger than every omitted one. |
| Activities.PrefixIsLatest | route_show/route_show.py:78-79 | The first `min(10, n)` rows of a descending arrangement of the table are its latest rows. |
| Routes.RouteShow.constructor | route_show/route_show.py:64-71 | An absent or empty database path becomes `data/data.db`. The mode flag is kept. |
| Routes.RouteShow.GetActivities | route_show/route_show.py:73-81 | All mode returns exactly the stored records, as a multiset. Recent mode returns the latest rows as `Activities.IsLatest` defines them. Every returned row is a stored one. |
| Routes.Kept | route_show/route_show.py:85-92 | The records that are not skipped are never more than the selected ones. |
| Routes.KeptSingle | route_show/route_show.py:91-92 | One record is kept exactly when its start date and moving time are non-empty and its distance is non-zero. |
| Routes.KeptAppend | route_show/route_show.py:85-92 | Skipping is decided record by record. The kept records of a concatenation are the kept records of each part, in order. |
| Routes.KeptMembers | route_show/route_show.py:91-92 | A record is kept exactly when it was selected and is complete. |
| Routes.DateLabel | route_show/route_show.py:93 | The date label is the start date cut to 16 characters, or the whole start date when it is shorter. |
| Routes.IsoDateLabels | route_show/route_show.py:93-124 | For a start date `YYYY-MM-DD` followed by the time of day, the file name is `YYYYMMDD_<distance>km_<duration>`. The date label is the date with the time to the minute. |
| Routes.FileStemExample | route_show/route_show.py:123-124 | `"2024-10-11T07:00:00"`, `5.0` and `30mins` give the file name `20241011_5.0km_30mins`. |
| Routes.RouteFileExample | route_show/route_show.py:93-124 | A record from 2024-10-11 07:00 with moving time `0:05:00` and distance text `1.2` produces a file named `20241011_1.2km_5mins`. Its texts are `2024-10-11T07:00`, `⏱ 5mins` and `1.2 公里`. |
| Routes.RouteFiles | route_show/route_show.py:85-126 | There is one picture per record. |
| Routes.RouteFilesAt | route_show/route_show.py:85-126 | The record at each position has a moving time that converts, and the picture at that position is the one for that record. |
| Routes.RouteFilesAppend | route_show/route_show.py:85-126 | A further record appends its own picture after the earlier ones. |
| Routes.SkippedStep | route_show/route_show.py:91-92 | A skipped record adds no picture. |
| Routes.RenderedStep | route_show/route_show.py:93-126 | A kept record whose time converts adds its picture after the earlier ones. |
| Routes.RouteShow.GenerateRoutes | route_show/route_show.py:83-126 | If no error is raised, the pictures are exactly one per kept selected record, in selection order. If the conversion raises, the error comes from the first kept record whose moving time fails to convert. The pictures are then exactly those of the kept records before it. |

## Left out

- The database (SQLAlchemy engine, session, schema creation): the table's rows are a constructor parameter. Columns are non-null, as the schema declares.
- `polyline.decode`, the staticmaps line, SVG rendering and the text overlays: these are drawing-library calls. The decode runs before the skip test and could raise on a malformed polyline; that failure is not modelled.
- `format_pace` and the pace text: floating-point arithmetic.
- Routes.RouteShow.GenerateRoutes: the only error it models is the moving-time conversion's `ValueError`. Two other exceptions are not modelled. One is a failure of `polyline.decode`, which runs before the skip test. The other is the `OverflowError` that `int(pace)` in `format_pace` raises when a non-zero `average_speed` is so small that the pace is infinite; it comes after the record's moving time has converted.
- Routes.RouteShow.GenerateRoutes: the returned list is the sequence of writes. Each file is opened with mode `"w"`, so a later record with the same file name replaces the earlier file on disk; the list keeps both entries.
- `round(distance / 1000, 1)` printed as text: floating-point printing, taken as the `distanceLabel` parameter. A distance is falsy only when it is `0.0`; NaN is not modelled.
- The PIL `textsize` patch: a compatibility shim for a library.
- Writing the `.svg` file: I/O, standing in the model as the `RouteFile` record appended to the output.
- `str()` of the stored moving time: the column is a string, so it is the identity.
- MovingTime.ToSeconds: only defined on moving times made of ASCII digits and letters, `:`, `.`, `,` and spaces. Python's `int()` would also accept signs, underscores and non-ASCII digits, and `str.split()` splits on other whitespace too; those inputs are outside the model.
- Routes.RouteShow.GetActivities: in all mode it promises no order, because the query has no `order_by`.
- Routes.RouteShow.constructor: requires distinct ids, which the primary key guarantees. It also requires every moving time to be in the character domain above.
