/**
 * The stored moving time of a run and the coarse run-time label derived from
 * it: `convert_moving_time_to_sec` and `format_run_time` of route_show.py.
 *
 * A moving time is `"H:MM:SS"` or `"D days, H:MM:SS[.ffffff]"`. It is split
 * on whitespace; with more than one token only the last token counts, cut at
 * its first `.`, so the day count is discarded. The time part must split on
 * `:` into exactly three integers.
 */
module MovingTime {
  import opened Wrappers
  import opened PyText

  /** The `ValueError`s the conversion can raise. */
  datatype TimeError =
    | InvalidLiteral   // `int()` of a field that is not a decimal integer
    | NotEnoughValues  // fewer than three fields to unpack
    | TooManyValues    // more than three fields to unpack

  /**
   * The characters a stored moving time is made of: digits, the separators
   * `:` `.` `,`, the space, and the letters of "days". Signs, underscores,
   * non-ASCII digits and other whitespace, which Python's `int()` and
   * `str.split()` would treat leniently, are outside the model.
   */
  predicate DomainChar(c: char) {
    IsDigit(c) || c == ':' || c == '.' || c == ',' || c == ' ' || 'a' <= c <= 'z' || 'A' <= c <= 'Z'
  }

  predicate InDomain(s: string) {
    forall k | 0 <= k < |s| :: DomainChar(s[k])
  }

  datatype Clock = Clock(hours: nat, minutes: nat, seconds: nat) {
    /** `(hours * 60 + minutes) * 60 + seconds` */
    function Total(): nat {
      (hours * 60 + minutes) * 60 + seconds
    }
  }

  /**
   * `hours, minutes, seconds = map(int, fields)`. The unpacking is lazy: it
   * converts the fields in order, up to a fourth one, before it can tell
   * that there are too few or too many, so a bad literal among the first
   * four fields is reported first.
   */
  function Unpack(fields: seq<string>): (r: Result<Clock, TimeError>)
    ensures r.Success? <==> |fields| == 3 && forall k | 0 <= k < 3 :: IsIntLiteral(fields[k])
    ensures r.Success? ==> r.value == Clock(IntValue(fields[0]), IntValue(fields[1]), IntValue(fields[2]))
    ensures r == Failure(NotEnoughValues) ==> |fields| < 3
    ensures r == Failure(TooManyValues) ==> |fields| > 3
    ensures r == Failure(InvalidLiteral) <==>
      exists k | 0 <= k < (if |fields| < 4 then |fields| else 4) :: !IsIntLiteral(fields[k])
  {
    var examined := if |fields| < 4 then |fields| else 4;
    if exists k | 0 <= k < examined :: !IsIntLiteral(fields[k]) then Failure(InvalidLiteral)
    else if |fields| < 3 then Failure(NotEnoughValues)
    else if |fields| > 3 then Failure(TooManyValues)
    else Success(Clock(IntValue(fields[0]), IntValue(fields[1]), IntValue(fields[2])))
  }

  /** The `H:MM:SS` part: the last token cut at its first `.`, or the whole string when it is one token. */
  function TimeText(movingTime: string): string {
    var parts := Tokens(movingTime);
    if |parts| > 1 then Split(parts[|parts| - 1], '.')[0] else movingTime
  }

  /** `convert_moving_time_to_sec`: whole seconds, or the error it raises. */
  function ToSeconds(movingTime: string): Result<nat, TimeError>
    requires InDomain(movingTime)
  {
    if movingTime == [] then Success(0)
    else
      var clock := Unpack(Split(TimeText(movingTime), ':'));
      if clock.Success? then Success(clock.value.Total()) else Failure(clock.error)
  }

  /** The label for a run of `total` seconds: seconds below a minute, otherwise whole minutes. */
  function RunTimeLabel(total: nat): string {
    var seconds := total % 60;
    var minutes := total / 60;
    if minutes == 0 then NatToString(seconds) + "s" else NatToString(minutes) + "mins"
  }

  /** `format_run_time`: the conversion's error propagates. */
  function FormatRunTime(movingTime: string): Result<string, TimeError>
    requires InDomain(movingTime)
  {
    match ToSeconds(movingTime)
    case Success(total) => Success(RunTimeLabel(total))
    case Failure(e) => Failure(e)
  }

  // ---------------------------------------------------------------------------
  // Conversion

  lemma EmptyIsZero()
    ensures ToSeconds("") == Success(0)
  {
  }

  /** A bare `H:MM:SS` of three digit fields is `(H*60+M)*60+S` seconds. */
  lemma ClockValue(h: string, m: string, s: string)
    requires h != [] && m != [] && s != []
    requires IsDigits(h) && IsDigits(m) && IsDigits(s)
    ensures InDomain(h + ":" + m + ":" + s)
    ensures ToSeconds(h + ":" + m + ":" + s) == Success(Clock(DigitsValue(h), DigitsValue(m), DigitsValue(s)).Total())
  {
    ClockText(h, m, s);
    ClockSeconds(h + ":" + m + ":" + s, h, m, s);
  }

  lemma ClockSeconds(t: string, h: string, m: string, s: string)
    requires h != [] && m != [] && s != []
    requires IsDigits(h) && IsDigits(m) && IsDigits(s)
    requires InDomain(t) && t != [] && ' ' !in t && Split(t, ':') == [h, m, s]
    ensures ToSeconds(t) == Success(Clock(DigitsValue(h), DigitsValue(m), DigitsValue(s)).Total())
  {
    SingleToken(t);
    UnpackDigits(h, m, s);
  }

  lemma UnpackDigits(h: string, m: string, s: string)
    requires h != [] && m != [] && s != []
    requires IsDigits(h) && IsDigits(m) && IsDigits(s)
    ensures Unpack([h, m, s]) == Success(Clock(DigitsValue(h), DigitsValue(m), DigitsValue(s)))
  {
    StripDigits(h);
    StripDigits(m);
    StripDigits(s);
    var fields := [h, m, s];
    assert forall k | 0 <= k < 3 :: IsIntLiteral(fields[k]) by {
      assert fields[0] == h && fields[1] == m && fields[2] == s;
    }
    assert IntValue(h) == DigitsValue(h) && IntValue(m) == DigitsValue(m) && IntValue(s) == DigitsValue(s);
  }

  lemma ClockText(h: string, m: string, s: string)
    requires IsDigits(h) && IsDigits(m) && IsDigits(s)
    ensures var t := h + ":" + m + ":" + s;
      InDomain(t) && t != [] && ' ' !in t && '.' !in t && Split(t, ':') == [h, m, s]
  {
    var t := h + ":" + m + ":" + s;
    assert forall k | 0 <= k < |t| :: IsDigit(t[k]) || t[k] == ':';
    assert [h, m, s][1..] == [m, s] && [m, s][1..] == [s];
    assert Join([m, s], ':') == m + [':'] + s;
    assert Join([h, m, s], ':') == h + [':'] + (m + [':'] + s) == t;
    JoinThenSplit([h, m, s], ':');
  }

  /**
   * A non-empty moving time converts exactly when its time part splits on
   * `:` into three integer literals, and then to their clock total.
   */
  lemma ConversionSucceeds(movingTime: string)
    requires InDomain(movingTime) && movingTime != []
    ensures var fields := Split(TimeText(movingTime), ':');
      && (ToSeconds(movingTime).Success? <==> |fields| == 3 && forall k | 0 <= k < 3 :: IsIntLiteral(fields[k]))
      && (ToSeconds(movingTime).Success? ==>
            ToSeconds(movingTime).value == Clock(IntValue(fields[0]), IntValue(fields[1]), IntValue(fields[2])).Total())
  {
  }

  // The example lemmas below take their string literals as parameters fixed by
  // `requires`, and their digit facts come from small helper lemmas. Written
  // directly with literals, the recursive string functions unfold on every
  // literal and the proofs exceed the resource limit.

  /** `"1:02:03"` is 3723 seconds. */
  lemma ClockExample(h: string, m: string, s: string)
    requires h == "1" && m == "02" && s == "03"
    ensures InDomain(h + ":" + m + ":" + s) && ToSeconds(h + ":" + m + ":" + s) == Success(3723)
  {
    DigitFields(h, m, s, 1, 2, 3);
    ClockValue(h, m, s);
  }

  /** The fields of the examples below and their values. */
  lemma DigitFields(h: string, m: string, s: string, hv: nat, mv: nat, sv: nat)
    requires || (h, m, s, hv, mv, sv) == ("1", "02", "03", 1, 2, 3)
             || (h, m, s, hv, mv, sv) == ("0", "00", "45", 0, 0, 45)
             || (h, m, s, hv, mv, sv) == ("0", "05", "00", 0, 5, 0)
    ensures h != [] && m != [] && s != [] && IsDigits(h) && IsDigits(m) && IsDigits(s)
    ensures DigitsValue(h) == hv && DigitsValue(m) == mv && DigitsValue(s) == sv
  {
    assert m[..1] == [m[0]] && s[..1] == [s[0]];
  }

  /** The time part of a last token: the token itself, or what precedes its first `.`. */
  lemma CutAtDot(t: string, w: string, frac: string)
    requires '.' !in t
    requires w == t || w == t + "." + frac
    ensures Split(w, '.')[0] == t
  {
    SplitWithoutSeparator(t, '.');
    if w != t {
      assert w == t + ['.'] + frac;
      SplitAround(t, '.', frac);
    }
  }

  lemma LastTokenCounts(days: string, t: string, w: string, frac: string)
    requires InDomain(days + " " + w) && InDomain(t)
    requires exists k | 0 <= k < |days| :: days[k] != ' '
    requires t != [] && ' ' !in t && '.' !in t && ' ' !in frac
    requires w == t || w == t + "." + frac
    ensures ToSeconds(days + " " + w) == ToSeconds(t)
  {
    var k :| 0 <= k < |days| && days[k] != ' ';
    SomeToken(days, k);
    assert ' ' !in w by {
      if w != t {
        assert w == t + ['.'] + frac;
      }
    }
    AppendToken(days, w);
    CutAtDot(t, w, frac);
    SingleToken(t);
    assert TimeText(days + " " + w) == t == TimeText(t);
    SameTimeText(days + " " + w, t);
  }

  /** Two non-empty moving times with the same time part convert alike. */
  lemma SameTimeText(s1: string, s2: string)
    requires InDomain(s1) && InDomain(s2) && s1 != [] && s2 != []
    requires TimeText(s1) == TimeText(s2)
    ensures ToSeconds(s1) == ToSeconds(s2)
  {
  }

  /** With a day prefix, the day count is discarded. */
  lemma DaysDiscarded(days: string, t: string)
    requires InDomain(days + " " + t) && InDomain(t)
    requires exists k | 0 <= k < |days| :: days[k] != ' '
    requires t != [] && ' ' !in t && '.' !in t
    ensures ToSeconds(days + " " + t) == ToSeconds(t)
  {
    LastTokenCounts(days, t, t, "");
  }

  /** With a day prefix, a fractional-second suffix is truncated as well. */
  lemma FractionDiscarded(days: string, t: string, frac: string)
    requires InDomain(days + " " + t + "." + frac) && InDomain(t)
    requires exists k | 0 <= k < |days| :: days[k] != ' '
    requires t != [] && ' ' !in t && '.' !in t && ' ' !in frac
    ensures ToSeconds(days + " " + t + "." + frac) == ToSeconds(t)
  {
    assert days + " " + t + "." + frac == days + " " + (t + "." + frac);
    LastTokenCounts(days, t, t + "." + frac, frac);
  }

  /** `"2 days, 1:02:03"` is 3723 seconds, like `"1:02:03"`. */
  lemma DaysExample(days: string, h: string, m: string, s: string)
    requires days == "2 days," && h == "1" && m == "02" && s == "03"
    ensures InDomain(days + " " + (h + ":" + m + ":" + s))
    ensures ToSeconds(days + " " + (h + ":" + m + ":" + s)) == Success(3723)
  {
    var t := h + ":" + m + ":" + s;
    ClockExample(h, m, s);
    DigitFields(h, m, s, 1, 2, 3);
    ClockText(h, m, s);
    ExampleParts(days, "9");
    DomainAppend(days, " ");
    DomainAppend(days + " ", t);
    DaysDiscarded(days, t);
  }

  /** `"2 days, 1:02:03.9"` is 3723 seconds as well: the fraction is cut off. */
  lemma DaysFractionExample(days: string, h: string, m: string, s: string, frac: string)
    requires days == "2 days," && h == "1" && m == "02" && s == "03" && frac == "9"
    ensures InDomain(days + " " + (h + ":" + m + ":" + s) + "." + frac)
    ensures ToSeconds(days + " " + (h + ":" + m + ":" + s) + "." + frac) == Success(3723)
  {
    var t := h + ":" + m + ":" + s;
    ClockExample(h, m, s);
    DigitFields(h, m, s, 1, 2, 3);
    ClockText(h, m, s);
    ExampleParts(days, frac);
    DomainAppend(days, " ");
    DomainAppend(days + " ", t);
    DomainAppend(days + " " + t, ".");
    DomainAppend(days + " " + t + ".", frac);
    FractionDiscarded(days, t, frac);
  }

  /** The day prefix and fraction of the examples above. */
  lemma ExampleParts(days: string, frac: string)
    requires days == "2 days," && frac == "9"
    ensures InDomain(days) && InDomain(frac) && InDomain(" ") && InDomain(".")
    ensures exists k | 0 <= k < |days| :: days[k] != ' '
    ensures ' ' !in frac
  {
    assert days[0] != ' ';
  }

  lemma DomainAppend(a: string, b: string)
    ensures InDomain(a + b) <==> InDomain(a) && InDomain(b)
  {
    if InDomain(a) && InDomain(b) {
      forall k | 0 <= k < |a + b|
        ensures DomainChar((a + b)[k])
      {
        if k >= |a| {
          assert (a + b)[k] == b[k - |a|];
        }
      }
    }
    if InDomain(a + b) {
      forall k | 0 <= k < |a|
        ensures DomainChar(a[k])
      {
        assert (a + b)[k] == a[k];
      }
      forall k | 0 <= k < |b|
        ensures DomainChar(b[k])
      {
        assert (a + b)[|a| + k] == b[k];
      }
    }
  }

  /** Only the multi-token form strips a fraction: a single token carrying a `.` does not parse. */
  lemma SingleTokenFractionFails(s: string)
    requires InDomain(s)
    requires |Tokens(s)| <= 1 && '.' in s
    ensures ToSeconds(s).Failure?
  {
    var fields := Split(s, ':');
    SplitKeepsCharacters(s, ':', '.');
    var k :| 0 <= k < |fields| && '.' in fields[k];
    NotIntLiteral(fields[k], '.');
  }

  // ---------------------------------------------------------------------------
  // Run-time label

  /** What a run-time label shows. */
  datatype Shown = ShownSeconds(seconds: nat) | ShownMinutes(minutes: nat)

  /** Reads a label back: digits then `mins`, or digits then `s`. */
  function ReadRunTimeLabel(shown: string): Option<Shown> {
    var n := |shown|;
    if n > 4 && shown[n - 4..] == "mins" && IsDigits(shown[..n - 4]) then
      Some(ShownMinutes(DigitsValue(shown[..n - 4])))
    else if n > 1 && shown[n - 1] == 's' && IsDigits(shown[..n - 1]) then
      Some(ShownSeconds(DigitsValue(shown[..n - 1])))
    else None
  }

  /** Below a minute the label shows the seconds; from a minute on, the whole minutes only. */
  lemma RunTimeLabelRoundTrip(total: nat)
    ensures ReadRunTimeLabel(RunTimeLabel(total)) ==
            if total < 60 then Some(ShownSeconds(total)) else Some(ShownMinutes(total / 60))
  {
    var text := RunTimeLabel(total);
    var n := |text|;
    if total < 60 {
      var digits := NatToString(total);
      NatToStringRoundTrip(total);
      assert text[..n - 1] == digits;
    } else {
      var digits := NatToString(total / 60);
      NatToStringRoundTrip(total / 60);
      assert text[..n - 4] == digits;
      assert text[n - 4..] == "mins";
    }
  }

  /** Two run times get the same label exactly when both are the same number of seconds below a minute, or the same number of whole minutes. */
  lemma RunTimeLabelsAgree(t: nat, u: nat)
    ensures RunTimeLabel(t) == RunTimeLabel(u) <==>
            if t < 60 then u == t else u >= 60 && t / 60 == u / 60
  {
    RunTimeLabelRoundTrip(t);
    RunTimeLabelRoundTrip(u);
  }

  /** `format_run_time` fails exactly when the conversion does, and otherwise shows the converted seconds. */
  lemma FormatRunTimeReads(movingTime: string)
    requires InDomain(movingTime)
    ensures FormatRunTime(movingTime).Failure? <==> ToSeconds(movingTime).Failure?
    ensures ToSeconds(movingTime).Failure? ==> FormatRunTime(movingTime).error == ToSeconds(movingTime).error
    ensures ToSeconds(movingTime).Success? ==>
      var total := ToSeconds(movingTime).value;
      ReadRunTimeLabel(FormatRunTime(movingTime).value) ==
        if total < 60 then Some(ShownSeconds(total)) else Some(ShownMinutes(total / 60))
  {
    if ToSeconds(movingTime).Success? {
      RunTimeLabelRoundTrip(ToSeconds(movingTime).value);
    }
  }

  /** `"0:00:45"` is labelled `"45s"`. */
  lemma RunTimeSecondsExample(h: string, m: string, s: string)
    requires h == "0" && m == "00" && s == "45"
    ensures InDomain(h + ":" + m + ":" + s) && FormatRunTime(h + ":" + m + ":" + s) == Success("45s")
  {
    DigitFields(h, m, s, 0, 0, 45);
    ClockValue(h, m, s);
    LabelExamples(45, 300);
  }

  /** `"0:05:00"` is labelled `"5mins"`. */
  lemma RunTimeMinutesExample(h: string, m: string, s: string)
    requires h == "0" && m == "05" && s == "00"
    ensures InDomain(h + ":" + m + ":" + s) && FormatRunTime(h + ":" + m + ":" + s) == Success("5mins")
  {
    DigitFields(h, m, s, 0, 5, 0);
    ClockValue(h, m, s);
    LabelExamples(45, 300);
  }

  lemma LabelExamples(short: nat, long: nat)
    requires short == 45 && long == 300
    ensures RunTimeLabel(short) == "45s" && RunTimeLabel(long) == "5mins"
  {
    assert NatToString(45) == NatToString(4) + ['5'] == "45";
  }
}
