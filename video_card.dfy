/** The text helpers of the video card (`app/components/VideoCard.js`): the clock
    display of a duration, the view count and the relative upload date. The current
    time is a parameter. */
module VideoCard {
  import opened JsValues

  /** JavaScript's `a % d` for a positive divisor: the remainder takes the sign of `a`. */
  function JsRem(a: int, d: int): (r: int)
    requires d > 0
    ensures a >= 0 ==> r == a % d
    ensures a < 0 ==> -d < r <= 0
  {
    if a >= 0 then a % d else -((-a) % d)
  }

  /** `n.toString().padStart(2, '0')`. */
  function Pad2(t: string): (r: string)
    ensures |r| >= |t| && |r| >= 2
    ensures r[|r| - |t|..] == t
    ensures forall i :: 0 <= i < |r| - |t| ==> r[i] == '0'
    ensures |t| >= 2 ==> r == t
    ensures |t| < 2 ==> |r| == 2
  {
    if |t| >= 2 then t else if |t| == 1 then "0" + t else "00"
  }

  /** formatDuration on a whole number of seconds. `Math.floor(x / d)` is Dafny's `/`
      for a positive divisor; `%` is JsRem. */
  function FormatDuration(seconds: int): (r: string)
    ensures seconds == 0 ==> r == "0:00"
  {
    if seconds == 0 then "0:00"
    else
      var hrs := seconds / 3600;
      var mins := JsRem(seconds, 3600) / 60;
      var secs := JsRem(seconds, 60);
      if hrs > 0 then IntToString(hrs) + ":" + Pad2(IntToString(mins)) + ":" + Pad2(IntToString(secs))
      else IntToString(mins) + ":" + Pad2(IntToString(secs))
  }

  /** The clock layout: for any split of a non-negative duration into hours, minutes
      under 60 and seconds under 60, the display is `M:SS` under an hour and `H:MM:SS`
      from an hour on, with minutes and seconds padded to two digits. */
  lemma FormatDurationLayout(seconds: int, h: int, m: int, s: int)
    requires seconds >= 0 && h >= 0 && 0 <= m < 60 && 0 <= s < 60
    requires h * 3600 + m * 60 + s == seconds
    ensures h > 0 ==> FormatDuration(seconds) == IntToString(h) + ":" + Pad2(IntToString(m)) + ":" + Pad2(IntToString(s))
    ensures h == 0 ==> FormatDuration(seconds) == IntToString(m) + ":" + Pad2(IntToString(s))
  {
    HoursOf(seconds, h, m * 60 + s);
    MinutesOf(m * 60 + s, m, s);
    SecondsOf(seconds, h * 60 + m, s);
    var hrs, mins, secs := seconds / 3600, JsRem(seconds, 3600) / 60, JsRem(seconds, 60);
    assert hrs == h && mins == m && secs == s;
  }

  lemma HoursOf(seconds: int, h: int, rest: int)
    requires h >= 0 && 0 <= rest < 3600 && seconds == h * 3600 + rest
    ensures seconds / 3600 == h && JsRem(seconds, 3600) == rest
  {
  }

  lemma MinutesOf(rest: int, m: int, s: int)
    requires 0 <= m < 60 && 0 <= s < 60 && rest == m * 60 + s
    ensures rest / 60 == m
  {
  }

  lemma SecondsOf(seconds: int, q: int, s: int)
    requires q >= 0 && 0 <= s < 60 && seconds == q * 60 + s
    ensures JsRem(seconds, 60) == s
  {
  }

  /** `text.split(sep)`. */
  function SplitOn(t: string, sep: char): (fields: seq<string>)
    ensures |fields| >= 1
    decreases |t|
  {
    if t == [] then [""]
    else
      var rest := SplitOn(t[1..], sep);
      if t[0] == sep then [""] + rest else [[t[0]] + rest[0]] + rest[1..]
  }

  lemma {:induction false} SplitOnPlain(a: string, sep: char)
    requires sep !in a
    ensures SplitOn(a, sep) == [a]
    decreases |a|
  {
    if a != [] {
      SplitOnPlain(a[1..], sep);
      assert [a[0]] + a[1..] == a;
    }
  }

  lemma {:induction false} SplitOnJoin(a: string, sep: char, b: string)
    requires sep !in a
    ensures SplitOn(a + [sep] + b, sep) == [a] + SplitOn(b, sep)
    decreases |a|
  {
    if a == [] {
      assert a + [sep] + b == [sep] + b;
      assert ([sep] + b)[1..] == b;
    } else {
      SplitOnJoin(a[1..], sep, b);
      assert (a + [sep] + b)[1..] == a[1..] + [sep] + b;
      assert [a[0]] + a[1..] == a;
    }
  }

  /** The seconds a clock display denotes: its colon-separated fields read in base 60. */
  function ClockValue(acc: int, fields: seq<string>): int
    decreases |fields|
  {
    if fields == [] then acc else ClockValue(acc * 60 + DigitsValue(fields[0]), fields[1..])
  }

  function ParseClock(t: string): int {
    ClockValue(0, SplitOn(t, ':'))
  }

  lemma DigitsHaveNoSeparator(n: nat, sep: char)
    requires !IsDigit(sep)
    ensures sep !in NatToString(n) && sep !in Pad2(NatToString(n))
  {
  }

  /** A leading zero does not change the digits' value. */
  lemma {:induction false} LeadingZero(t: string)
    ensures DigitsValue("0" + t) == DigitsValue(t)
    decreases |t|
  {
    if t != [] {
      assert ("0" + t)[..|"0" + t| - 1] == "0" + t[..|t| - 1];
      LeadingZero(t[..|t| - 1]);
    }
  }

  lemma PaddedValue(n: nat)
    ensures DigitsValue(Pad2(NatToString(n))) == n
  {
    DigitsRoundTrip(n);
    LeadingZero(NatToString(n));
  }

  lemma SplitTwo(a: string, b: string)
    requires ':' !in a && ':' !in b
    ensures SplitOn(a + ":" + b, ':') == [a, b]
  {
    SplitOnPlain(b, ':');
    assert a + ":" + b == a + [':'] + b;
    SplitOnJoin(a, ':', b);
  }

  lemma SplitThree(a: string, b: string, c: string)
    requires ':' !in a && ':' !in b && ':' !in c
    ensures SplitOn(a + ":" + b + ":" + c, ':') == [a, b, c]
  {
    var rest := b + ":" + c;
    SplitTwo(b, c);
    assert a + ":" + b + ":" + c == a + [':'] + rest;
    SplitOnJoin(a, ':', rest);
  }

  lemma ClockStep(acc: int, f: seq<string>)
    requires f != []
    ensures ClockValue(acc, f) == ClockValue(acc * 60 + DigitsValue(f[0]), f[1..])
  {
  }

  lemma ClockOfTwo(a: string, b: string)
    ensures ClockValue(0, [a, b]) == DigitsValue(a) * 60 + DigitsValue(b)
  {
    ClockStep(0, [a, b]);
    assert [a, b][1..] == [b];
    ClockStep(DigitsValue(a), [b]);
    assert [b][1..] == [];
  }

  lemma ClockOfThree(a: string, b: string, c: string)
    ensures ClockValue(0, [a, b, c]) == (DigitsValue(a) * 60 + DigitsValue(b)) * 60 + DigitsValue(c)
  {
    ClockStep(0, [a, b, c]);
    assert [a, b, c][1..] == [b, c];
    ClockOfTwoFrom(DigitsValue(a), b, c);
  }

  lemma ClockOfTwoFrom(acc: int, b: string, c: string)
    ensures ClockValue(acc, [b, c]) == (acc * 60 + DigitsValue(b)) * 60 + DigitsValue(c)
  {
    ClockStep(acc, [b, c]);
    assert [b, c][1..] == [c];
    ClockStep(acc * 60 + DigitsValue(b), [c]);
    assert [c][1..] == [];
  }

  /** Reading the display back gives the duration, for every non-negative duration. */
  lemma FormatDurationRoundTrip(seconds: int)
    requires seconds >= 0
    ensures ParseClock(FormatDuration(seconds)) == seconds
  {
    var h, m, s := seconds / 3600, (seconds % 3600) / 60, seconds % 60;
    ClockSplit(seconds);
    FormatDurationLayout(seconds, h, m, s);
    if h > 0 {
      LongClockValue(h, m, s);
    } else {
      ShortClockValue(m, s);
    }
  }

  /** The hours, minutes and seconds of a duration. */
  lemma ClockSplit(seconds: int)
    requires seconds >= 0
    ensures var h, m, s := seconds / 3600, (seconds % 3600) / 60, seconds % 60;
      h >= 0 && 0 <= m < 60 && 0 <= s < 60 && h * 3600 + m * 60 + s == seconds
  {
    var h, r := seconds / 3600, seconds % 3600;
    assert seconds == h * 3600 + r && 0 <= r < 3600;
    var m, s := r / 60, r % 60;
    assert r == m * 60 + s && 0 <= s < 60 && 0 <= m < 60;
    assert seconds % 60 == s by {
      assert seconds == (h * 60 + m) * 60 + s;
    }
  }

  /** `H:MM:SS` reads back as its seconds. */
  lemma LongClockValue(h: nat, m: nat, s: nat)
    requires m < 60 && s < 60
    ensures ParseClock(IntToString(h) + ":" + Pad2(IntToString(m)) + ":" + Pad2(IntToString(s))) == h * 3600 + m * 60 + s
  {
    var a, b, c := NatToString(h), Pad2(NatToString(m)), Pad2(NatToString(s));
    DigitsHaveNoSeparator(h, ':');
    DigitsHaveNoSeparator(m, ':');
    DigitsHaveNoSeparator(s, ':');
    SplitThree(a, b, c);
    ClockOfThree(a, b, c);
    DigitsRoundTrip(h);
    PaddedValue(m);
    PaddedValue(s);
  }

  /** `M:SS` reads back as its seconds. */
  lemma ShortClockValue(m: nat, s: nat)
    requires s < 60
    ensures ParseClock(IntToString(m) + ":" + Pad2(IntToString(s))) == m * 60 + s
  {
    var a, b := NatToString(m), Pad2(NatToString(s));
    DigitsHaveNoSeparator(m, ':');
    DigitsHaveNoSeparator(s, ':');
    SplitTwo(a, b);
    ClockOfTwo(a, b);
    DigitsRoundTrip(m);
    PaddedValue(s);
  }

  // ---------------------------------------------------------------------------
  // formatViews

  /** formatViews on a whole number; None for the K and M branches, which print a
      rounded fraction. */
  function FormatViews(views: int): (r: Option<string>)
    ensures views == 0 ==> r == Some("0 views")
    ensures r.None? <==> views >= 1000
  {
    if views == 0 then Some("0 views")
    else if views >= 1000000 then None
    else if views >= 1000 then None
    else Some(IntToString(views) + " views")
  }

  /** Below 1000 the exact count is printed: the text before ` views` reads back as
      the count. */
  lemma FormatViewsExact(views: int)
    requires views < 1000
    ensures FormatViews(views).Some?
    ensures var t := FormatViews(views).value;
      |t| > 6 && t[|t| - 6..] == " views" && IntValue(t[..|t| - 6]) == views
  {
    var t := FormatViews(views).value;
    if views == 0 {
      assert t[..|t| - 6] == "0";
      assert DigitsValue("0") == 0 by {
        assert "0"[..0] == "";
      }
    } else {
      assert t[..|t| - 6] == IntToString(views);
      IntRoundTrip(views);
    }
  }

  // ---------------------------------------------------------------------------
  // formatDate

  datatype Unit = Hours | Days | Weeks | Months | Years

  /** A relative age as the card shows it. */
  datatype Age = JustNow | Ago(count: int, unit: Unit)

  function UnitName(u: Unit): string {
    match u
    case Hours => "hours"
    case Days => "days"
    case Weeks => "weeks"
    case Months => "months"
    case Years => "years"
  }

  function Render(a: Age): string {
    match a
    case JustNow => "Just now"
    case Ago(n, u) => IntToString(n) + " " + UnitName(u) + " ago"
  }

  const MinuteMs := 60000
  const HourMs := 3600000
  const DayMs := 86400000

  /** The threshold ladder of formatDate on the age in milliseconds, as written: the
      year count is `floor(days / 365)` once `floor(days / 30)` reaches 12. */
  function AgeAsWritten(diff: int): (a: Age)
    ensures diff < HourMs ==> a == JustNow
  {
    var minutes := diff / MinuteMs;
    var hours := diff / HourMs;
    var days := diff / DayMs;
    var months := days / 30;
    var years := days / 365;
    if minutes < 60 then JustNow
    else if hours < 24 then Ago(hours, Hours)
    else if days < 7 then Ago(days, Days)
    else if days < 30 then Ago(days / 7, Weeks)
    else if months < 12 then Ago(months, Months)
    else Ago(years, Years)
  }

  /** formatDate as written; `timestamp` is in seconds, `nowMs` is the clock read. */
  function FormatDateAsWritten(timestamp: int, nowMs: int): (r: string)
    ensures timestamp == 0 ==> r == ""
  {
    if timestamp == 0 then "" else Render(AgeAsWritten(nowMs - timestamp * 1000))
  }

  /** Between 360 and 364 days the month count has reached 12 but the year count is
      still 0: the card says "0 years ago". */
  lemma ZeroYearsAgo()
    ensures AgeAsWritten(360 * DayMs) == Ago(0, Years)
    ensures FormatDateAsWritten(1, 1000 + 360 * DayMs) == "0 years ago"
  {
    assert IntToString(0) == "0";
  }

  /** The ladder with the year count clamped to at least one, which changes only the
      ages of 360 to 364 days. */
  function AgeOf(diff: int): (a: Age)
    ensures a.Ago? ==> a.count >= 1
    ensures a != AgeAsWritten(diff) ==> 360 <= diff / DayMs < 365 && a == Ago(1, Years)
  {
    match AgeAsWritten(diff)
    case Ago(n, Years) => Ago(if n < 1 then 1 else n, Years)
    case other => other
  }

  /** formatDate with the corrected year count. */
  function FormatDate(timestamp: int, nowMs: int): (r: string)
    ensures timestamp == 0 ==> r == ""
  {
    if timestamp == 0 then "" else Render(AgeOf(nowMs - timestamp * 1000))
  }

  function UnitRank(u: Unit): nat {
    match u
    case Hours => 0
    case Days => 1
    case Weeks => 2
    case Months => 3
    case Years => 4
  }

  /** The ladder: under an hour (a future time included) is "Just now", then hours
      under a day, days under a week, weeks under 30 days, months under 12 months,
      then years. */
  lemma AgeLadder(diff: int)
    ensures diff < HourMs <==> AgeOf(diff) == JustNow
    ensures HourMs <= diff < DayMs ==> AgeOf(diff) == Ago(diff / HourMs, Hours)
    ensures DayMs <= diff < 7 * DayMs ==> AgeOf(diff) == Ago(diff / DayMs, Days)
    ensures 7 * DayMs <= diff < 30 * DayMs ==> AgeOf(diff) == Ago(diff / DayMs / 7, Weeks)
    ensures 30 * DayMs <= diff < 360 * DayMs ==> AgeOf(diff) == Ago(diff / DayMs / 30, Months)
    ensures 360 * DayMs <= diff ==> AgeOf(diff).Ago? && AgeOf(diff).unit == Years
  {
  }

  /** An older upload never shows a smaller unit, nor a smaller count in the same unit. */
  lemma AgeMonotone(d1: int, d2: int)
    requires d1 <= d2
    ensures AgeOf(d1).Ago? ==> AgeOf(d2).Ago?
    ensures AgeOf(d1).Ago? ==> UnitRank(AgeOf(d1).unit) <= UnitRank(AgeOf(d2).unit)
    ensures AgeOf(d1).Ago? && AgeOf(d1).unit == AgeOf(d2).unit ==> AgeOf(d1).count <= AgeOf(d2).count
  {
    assert d1 / 60000 <= d2 / 60000;
    assert d1 / 3600000 <= d2 / 3600000;
    var e1, e2 := d1 / 86400000, d2 / 86400000;
    assert e1 <= e2;
    assert e1 / 7 <= e2 / 7;
    assert e1 / 30 <= e2 / 30;
    assert e1 / 365 <= e2 / 365;
  }

  /** Reading an age back from its text. */
  function ParseAge(t: string): Option<Age> {
    var f := SplitOn(t, ' ');
    if f == ["Just", "now"] then Some(JustNow)
    else if |f| == 3 && f[2] == "ago" then
      match UnitOfName(f[1])
      case None => None
      case Some(u) => Some(Ago(IntValue(f[0]), u))
    else None
  }

  function UnitOfName(name: string): Option<Unit> {
    if name == "hours" then Some(Hours)
    else if name == "days" then Some(Days)
    else if name == "weeks" then Some(Weeks)
    else if name == "months" then Some(Months)
    else if name == "years" then Some(Years)
    else None
  }

  /** Different ages read differently: the text of an age reads back as that age. */
  lemma RenderRoundTrip(a: Age)
    ensures ParseAge(Render(a)) == Some(a)
  {
    match a
    case JustNow =>
      SplitOnPlain("now", ' ');
      SplitOnJoin("Just", ' ', "now");
      assert "Just now" == "Just" + [' '] + "now";
    case Ago(n, u) =>
      var ns, us := IntToString(n), UnitName(u);
      NoSpaceInNumber(n);
      UnitNameRoundTrip(u);
      AgoFields(ns, us);
      IntRoundTrip(n);
  }

  lemma NoSpaceInNumber(n: int)
    ensures ' ' !in IntToString(n)
  {
    if n < 0 {
      assert IntToString(n) == "-" + NatToString(-n);
    }
  }

  lemma UnitNameRoundTrip(u: Unit)
    ensures ' ' !in UnitName(u) && UnitOfName(UnitName(u)) == Some(u)
  {
  }

  /** `count unit ago` splits on spaces into its three words. */
  lemma AgoFields(ns: string, us: string)
    requires ' ' !in ns && ' ' !in us
    ensures SplitOn(ns + " " + us + " ago", ' ') == [ns, us, "ago"]
  {
    SplitOnPlain("ago", ' ');
    SplitOnJoin(us, ' ', "ago");
    assert us + " ago" == us + [' '] + "ago";
    SplitOnJoin(ns, ' ', us + " ago");
    assert ns + " " + us + " ago" == ns + [' '] + (us + " ago");
  }

  /** The displayed text of any upload, other than an empty timestamp, reads back as
      its age on the ladder. */
  lemma FormatDateReadsBack(timestamp: int, nowMs: int)
    requires timestamp != 0
    ensures ParseAge(FormatDate(timestamp, nowMs)) == Some(AgeOf(nowMs - timestamp * 1000))
  {
    RenderRoundTrip(AgeOf(nowMs - timestamp * 1000));
  }
}
