/**
 * The two small conversions of the chat: `convert_duration` (seconds to
 * Python's `str(timedelta(seconds=n))`) and `convert_urls` (first comma field).
 */
module Conversions {
  import opened Basics
  import opened PyStr

  /** The argument of `convert_duration`: a number of seconds or its text. */
  datatype Duration = Seconds(n: int) | Text(s: string)

  const SecondsPerDay := 86400
  /** `timedelta.max.days`: a larger magnitude raises OverflowError. */
  const MaxDays := 999999999

  /** `"%02d" % n` for 0 <= n < 100. */
  function Pad2(n: nat): (r: string)
    requires n < 100
    ensures |r| == 2 && IsDigit(r)
  {
    [DigitChar(n / 10), DigitChar(n % 10)]
  }

  /** The three fields of `"%d:%02d:%02d" % (hh, mm, ss)`, found with `divmod` by 60 twice. */
  function ClockFields(secs: nat): seq<string>
    requires secs < SecondsPerDay
  {
    var mm, ss := secs / 60, secs % 60;
    [NatToString(mm / 60), Pad2(mm % 60), Pad2(ss)]
  }

  /** The seconds within a day as `H:MM:SS`. */
  function Clock(secs: nat): string
    requires secs < SecondsPerDay
  {
    Join(":", ClockFields(secs))
  }

  /** `"day%s," % plural`: singular exactly when the magnitude is 1. */
  function DayWord(days: int): (w: string)
    ensures w == "day," || w == "days,"
  {
    "day" + (if days == 1 || days == -1 then "" else "s") + ","
  }

  /** The `"%d day%s, "` prefix, present only for a non-zero day count. */
  function DayPrefix(days: int): string {
    if days == 0 then "" else IntToString(days) + " " + DayWord(days) + " "
  }

  /**
   * `str(timedelta(seconds=n))`: floor division into days and seconds within
   * the day (Python's `divmod`, which for the positive divisor agrees with
   * Dafny's Euclidean `/` and `%`), OverflowError past `MaxDays`.
   */
  function TimedeltaString(n: int): (r: Result<string>)
    ensures r.Fail? <==> n / SecondsPerDay < -MaxDays || n / SecondsPerDay > MaxDays
    ensures r.Fail? ==> r.error == OverflowError
  {
    var days := n / SecondsPerDay;
    if days < -MaxDays || days > MaxDays then Fail(OverflowError)
    else Ok(DayPrefix(days) + Clock(n % SecondsPerDay))
  }

  /** `convert_duration(duration)`: a string goes through `int(...)` first. */
  function ConvertDuration(d: Duration): (r: Result<string>)
    ensures r.Fail? ==> r.error == ValueError || r.error == OverflowError
    ensures d.Text? && ParseInt(d.s).None? ==> r == Fail(ValueError)
  {
    match d
    case Seconds(n) => TimedeltaString(n)
    case Text(s) =>
      match ParseInt(s)
      case None => Fail(ValueError)
      case Some(n) => TimedeltaString(n)
  }

  // ---------------------------------------------------------------------------
  // Reading a duration back
  // ---------------------------------------------------------------------------

  /** Reads `H:MM:SS` back into seconds. */
  function ParseClock(c: string): Option<int> {
    var f := Split(c, ":");
    if |f| != 3 then None
    else
      match (ParseInt(f[0]), ParseInt(f[1]), ParseInt(f[2]))
      case (Some(h), Some(m), Some(s)) => Some(h * 3600 + m * 60 + s)
      case _ => None
  }

  /** Reads `[D day[s], ]H:MM:SS` back into seconds. */
  function ParseDuration(t: string): Option<int> {
    var w := Split(t, " ");
    if |w| == 1 then ParseClock(t) else ParseDayWords(w)
  }

  /** Reads the words `D`, `day,` or `days,` and `H:MM:SS` back into seconds. */
  function ParseDayWords(w: seq<string>): Option<int> {
    if |w| == 3 && (w[1] == "day," || w[1] == "days,") then
      match (ParseInt(w[0]), ParseClock(w[2]))
      case (Some(d), Some(c)) => Some(d * SecondsPerDay + c)
      case _ => None
    else None
  }

  /** Every character of `t` is a digit or `c`. */
  predicate DigitsOr(t: string, c: char) {
    forall i :: 0 <= i < |t| ==> IsDigitChar(t[i]) || t[i] == c
  }

  lemma FreeOfChar(t: string, c: char, d: char)
    requires DigitsOr(t, c) && !IsDigitChar(d) && d != c
    ensures !Contains(t, [d])
  {
    forall k | 0 <= k <= |t|
      ensures !OccursAt(t, [d], k)
    {
      if k + 1 <= |t| {
        assert t[k..k + 1][0] == t[k];
      }
    }
  }

  lemma ParsePad2(n: nat)
    requires n < 100
    ensures ParseInt(Pad2(n)) == Some(n)
  {
    var p := Pad2(n);
    ParseDigits(p);
    assert p[..1][..0] == [] && p[..1][0] == p[0];
    assert DecimalValue(p[..1]) == n / 10;
    assert DecimalValue(p) == n / 10 * 10 + n % 10;
  }

  /** The fields are digit strings that read back as hours, minutes and seconds. */
  lemma ClockFieldValues(secs: nat)
    requires secs < SecondsPerDay
    ensures var f := ClockFields(secs); var mm := secs / 60;
      && (forall p | p in f :: IsDigit(p))
      && ParseInt(f[0]) == Some(mm / 60) && ParseInt(f[1]) == Some(mm % 60) && ParseInt(f[2]) == Some(secs % 60)
  {
    var mm := secs / 60;
    HoursField(mm / 60);
    ParsePad2(mm % 60);
    ParsePad2(secs % 60);
  }

  lemma HoursField(h: nat)
    requires h < 100
    ensures IsDigit(NatToString(h)) && ParseInt(NatToString(h)) == Some(h)
  {
    NatToStringLength(h, 2);
    ParseDigits(NatToString(h));
    DecimalValueOfNatToString(h);
  }

  lemma ClockSplit(secs: nat)
    requires secs < SecondsPerDay
    ensures Split(Clock(secs), ":") == ClockFields(secs)
  {
    var f := ClockFields(secs);
    ClockFieldValues(secs);
    forall p | p in f ensures !Contains(p, ":") {
      DigitsFreeOf(p, ':');
    }
    SplitJoin(f, ":");
  }

  /** The clock text reads back as the seconds it was made from. */
  lemma ClockRoundTrip(secs: nat)
    requires secs < SecondsPerDay
    ensures ParseClock(Clock(secs)) == Some(secs)
  {
    ClockParsed(secs, secs / 60 / 60, secs / 60 % 60, secs % 60);
    Recombine(secs);
  }

  /** The clock text reads back as its hours, minutes and seconds fields. */
  lemma ClockParsed(secs: nat, h: nat, m: nat, s: nat)
    requires secs < SecondsPerDay && h == secs / 60 / 60 && m == secs / 60 % 60 && s == secs % 60
    ensures ParseClock(Clock(secs)) == Some(h * 3600 + m * 60 + s)
  {
    ClockSplit(secs);
    ClockFieldValues(secs);
    ParseClockFields(Clock(secs), ClockFields(secs), h, m, s);
  }

  /** Three fields that each read as a number read as hours, minutes and seconds. */
  lemma ParseClockFields(c: string, f: seq<string>, h: int, m: int, s: int)
    requires Split(c, ":") == f
    requires |f| == 3 && ParseInt(f[0]) == Some(h) && ParseInt(f[1]) == Some(m) && ParseInt(f[2]) == Some(s)
    ensures ParseClock(c) == Some(h * 3600 + m * 60 + s)
  {
  }

  /** Hours, minutes and seconds found by `divmod` by 60 twice add back up to the seconds. */
  lemma Recombine(secs: nat)
    ensures (secs / 60 / 60) * 3600 + (secs / 60 % 60) * 60 + secs % 60 == secs
  {
    var mm := secs / 60;
    assert secs == mm * 60 + secs % 60;
    assert mm == (mm / 60) * 60 + mm % 60;
  }

  lemma JoinChars(sep: char, parts: seq<string>)
    requires forall p | p in parts :: AllDigits(p)
    ensures DigitsOr(Join([sep], parts), sep)
    decreases |parts|
  {
    if |parts| == 1 {
      assert parts[0] in parts;
    } else if |parts| > 1 {
      assert parts[0] in parts;
      JoinChars(sep, parts[1..]);
      var a, rest := parts[0], Join([sep], parts[1..]);
      var t := a + [sep] + rest;
      forall i | 0 <= i < |t| ensures IsDigitChar(t[i]) || t[i] == sep {
        if i < |a| { assert t[i] == a[i]; }
        else if i > |a| { assert t[i] == rest[i - |a| - 1]; }
      }
    }
  }

  lemma ClockChars(secs: nat)
    requires secs < SecondsPerDay
    ensures !Contains(Clock(secs), " ")
  {
    ClockFieldValues(secs);
    JoinChars(':', ClockFields(secs));
    FreeOfChar(Clock(secs), ':', ' ');
  }

  lemma IntToStringChars(n: int)
    ensures !Contains(IntToString(n), " ")
  {
    var t := IntToString(n);
    if n < 0 {
      forall i | 0 <= i < |t| ensures IsDigitChar(t[i]) || t[i] == '-' {
        if i > 0 { assert t[i] == NatToString(-n)[i - 1]; }
      }
    }
    FreeOfChar(t, '-', ' ');
  }

  lemma DayWordFree(word: string)
    requires word == "day," || word == "days,"
    ensures !Contains(word, " ")
  {
    forall k | 0 <= k <= |word| ensures !OccursAt(word, " ", k) {
      if k + 1 <= |word| { assert word[k..k + 1][0] == word[k]; }
    }
  }

  /**
   * Round trip: every duration `convert_duration` renders reads back as the
   * number of seconds it was given, days, sign and plural included.
   */
  lemma DurationRoundTrip(n: int)
    requires TimedeltaString(n).Ok?
    ensures ParseDuration(TimedeltaString(n).value) == Some(n)
  {
    if n / SecondsPerDay == 0 {
      NoDaysRoundTrip(n);
    } else {
      DaysRoundTrip(n);
    }
  }

  lemma NoDaysRoundTrip(n: int)
    requires n / SecondsPerDay == 0
    ensures TimedeltaString(n).Ok? && ParseDuration(TimedeltaString(n).value) == Some(n)
  {
    var secs := n % SecondsPerDay;
    assert n == secs;
    assert TimedeltaString(n).value == Clock(secs);
    ClockOnlyRoundTrip(secs);
  }

  lemma DaysRoundTrip(n: int)
    requires TimedeltaString(n).Ok? && n / SecondsPerDay != 0
    ensures ParseDuration(TimedeltaString(n).value) == Some(n)
  {
    var days, secs := n / SecondsPerDay, n % SecondsPerDay;
    var t := TimedeltaString(n).value;
    DaysText(n);
    DaySplit(t, days, DayWord(days), secs);
    NatToStringLength(if days < 0 then -days else days, 10);
    ParseIntToString(days);
    ClockRoundTrip(secs);
    WithDaysRoundTrip(t, days, DayWord(days), secs, n, IntToString(days), Clock(secs));
  }

  lemma DaysText(n: int)
    requires TimedeltaString(n).Ok? && n / SecondsPerDay != 0
    ensures var days := n / SecondsPerDay;
      && n == days * SecondsPerDay + n % SecondsPerDay
      && TimedeltaString(n).value == IntToString(days) + " " + (DayWord(days) + " " + Clock(n % SecondsPerDay))
  {
  }

  lemma ClockOnlyRoundTrip(secs: nat)
    requires secs < SecondsPerDay
    ensures ParseDuration(Clock(secs)) == Some(secs)
  {
    var clock := Clock(secs);
    ClockRoundTrip(secs);
    ClockChars(secs);
    assert clock == Join(" ", [clock]);
    SplitJoin([clock], " ");
  }

  lemma WithDaysRoundTrip(t: string, days: int, word: string, secs: nat, n: int, dayText: string, clock: string)
    requires (word == "day," || word == "days,") && n == days * SecondsPerDay + secs
    requires Split(t, " ") == [dayText, word, clock]
    requires ParseInt(dayText) == Some(days) && ParseClock(clock) == Some(secs)
    ensures ParseDuration(t) == Some(n)
  {
    DayWordsParse(t, days, secs);
  }

  /** Three words whose first and last read as a day count and a clock read as that many days and seconds. */
  lemma DayWordsParse(t: string, days: int, secs: int)
    requires var w := Split(t, " ");
      |w| == 3 && (w[1] == "day," || w[1] == "days,")
      && ParseInt(w[0]) == Some(days) && ParseClock(w[2]) == Some(secs)
    ensures ParseDuration(t) == Some(days * SecondsPerDay + secs)
  {
    DayWordsValue(Split(t, " "), days, secs);
  }

  lemma DaySplit(t: string, days: int, word: string, secs: nat)
    requires secs < SecondsPerDay && (word == "day," || word == "days,")
    requires t == IntToString(days) + " " + (word + " " + Clock(secs))
    ensures Split(t, " ") == [IntToString(days), word, Clock(secs)]
  {
    var clock := Clock(secs);
    var parts := [IntToString(days), word, clock];
    assert parts[1..] == [word, clock] && [word, clock][1..] == [clock];
    assert Join(" ", [word, clock]) == word + " " + clock;
    assert Join(" ", parts) == t;
    ClockChars(secs);
    IntToStringChars(days);
    DayWordFree(word);
    SplitJoin(parts, " ");
  }

  lemma DayWordsValue(w: seq<string>, days: int, secs: int)
    requires |w| == 3 && (w[1] == "day," || w[1] == "days,")
    requires ParseInt(w[0]) == Some(days) && ParseClock(w[2]) == Some(secs)
    ensures ParseDayWords(w) == Some(days * SecondsPerDay + secs)
  {
  }

  /** A duration under a day has no day part: it is the bare `H:MM:SS` clock, minutes and seconds two digits each. */
  lemma UnderADay(n: int)
    requires 0 <= n < SecondsPerDay
    ensures TimedeltaString(n) == Ok(Clock(n))
    ensures var f := Split(Clock(n), ":"); |f| == 3 && |f[1]| == 2 && |f[2]| == 2
  {
    assert n / SecondsPerDay == 0 && n % SecondsPerDay == n;
    assert DayPrefix(0) + Clock(n) == Clock(n);
    ClockSplit(n);
  }

  // ---------------------------------------------------------------------------
  // convert_urls
  // ---------------------------------------------------------------------------

  /** `convert_urls(urls)`: the text before the first comma. */
  function ConvertUrls(urls: string): string {
    Split(urls, ",")[0]
  }

  /**
   * The result is the longest comma-free prefix: a prefix of the input with no
   * comma, and either the whole input (exactly when there is no comma) or
   * followed by a comma.
   */
  lemma ConvertUrlsSpec(urls: string)
    ensures var r := ConvertUrls(urls);
      && |r| <= |urls| && urls[..|r|] == r && !Contains(r, ",")
      && (r == urls <==> !Contains(urls, ","))
      && (r != urls ==> urls[|r|] == ',')
  {
    var r := ConvertUrls(urls);
    SplitFirst(urls, ",");
    if r != urls {
      assert urls[|r|..|r| + 1] == ",";
    }
  }
}
