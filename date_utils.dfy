/** The client's two time formatters (client/src/utils/date-utils.ts).
    Both work on whole milliseconds; the clock reading `new Date()` of
    formatTimeAgo is passed in as `now`. */
module DateUtils {
  import opened Wrappers
  import opened Decimal

  const TimesUp := "Time's up!"

  const MillisPerSecond := 1000
  const MillisPerMinute := 60000
  const MillisPerHour := 3600000

  /** formatTimeRemaining: "Time's up!" for a non-positive count, otherwise
      `H:MM:SS left` built from floored divisions. */
  function FormatTimeRemaining(milliseconds: int): (r: string)
    ensures r == TimesUp <==> milliseconds <= 0
  {
    if milliseconds <= 0 then TimesUp
    else
      var seconds := milliseconds / 1000;
      var minutes := seconds / 60;
      var hours := minutes / 60;
      var r := NatToString(hours) + ":" + PadStart2(NatToString(minutes % 60))
               + ":" + PadStart2(NatToString(seconds % 60)) + " left";
      assert r[|r| - 1] == 't' != TimesUp[|TimesUp| - 1];
      r
  }

  /** The three numbers a `H:MM:SS left` label shows. */
  datatype Clock = Clock(hours: nat, minutes: nat, seconds: nat)

  /** Reads a `H:MM:SS left` label: at least one hour digit, exactly two
      minute and two second digits. */
  function ParseClock(s: string): Option<Clock>
  {
    if |s| < 12 || s[|s| - 5..] != " left" then None
    else
      var n := |s| - 5;
      if s[n - 6] != ':' || s[n - 3] != ':' then None
      else
        var h, m, sec := s[..n - 6], s[n - 5..n - 3], s[n - 2..n];
        if AllDigits(h) && AllDigits(m) && AllDigits(sec)
        then Some(Clock(Value(h), Value(m), Value(sec)))
        else None
  }

  /** For a positive count the label shows the whole hours (no wrap at 24),
      then the minutes and seconds within the hour and minute, each below 60. */
  lemma {:induction false} TimeRemainingShowsClock(milliseconds: int)
    requires milliseconds > 0
    ensures ParseClock(FormatTimeRemaining(milliseconds))
         == Some(Clock(milliseconds / MillisPerHour,
                       milliseconds / MillisPerMinute % 60,
                       milliseconds / MillisPerSecond % 60))
  {
    var seconds := milliseconds / 1000;
    var minutes := seconds / 60;
    var hours := minutes / 60;
    ChainedDivisions(milliseconds);
    PadStart2Digits(minutes % 60);
    PadStart2Digits(seconds % 60);
    ParseClockReadsBack(NatToString(hours), PadStart2(NatToString(minutes % 60)),
                        PadStart2(NatToString(seconds % 60)));
  }

  /** ParseClock reads back any label laid out as `H:MM:SS left`. */
  lemma ParseClockReadsBack(h: string, mm: string, ss: string)
    requires |h| >= 1 && AllDigits(h) && |mm| == 2 && AllDigits(mm) && |ss| == 2 && AllDigits(ss)
    ensures ParseClock(h + ":" + mm + ":" + ss + " left") == Some(Clock(Value(h), Value(mm), Value(ss)))
  {
    var s := h + ":" + mm + ":" + ss + " left";
    var n := |s| - 5;
    assert s[n..] == " left";
    assert s[n - 6] == ':' && s[n - 3] == ':';
    assert s[n - 5..n - 3] == mm;
    assert s[n - 2..n] == ss;
    assert s[..n - 6] == h;
  }

  /** Flooring to seconds, then minutes, then hours is flooring by the
      whole unit at once. */
  lemma ChainedDivisions(milliseconds: int)
    requires milliseconds > 0
    ensures milliseconds / 1000 / 60 == milliseconds / MillisPerMinute
    ensures milliseconds / 1000 / 60 / 60 == milliseconds / MillisPerHour
  {
  }

  /** A positive count below one second still reads as a running clock. */
  lemma SubSecondIsZeroClock(milliseconds: int)
    requires 0 < milliseconds < 1000
    ensures FormatTimeRemaining(milliseconds) == "0:00:00 left"
  {
    assert NatToString(0) == "0";
  }

  /** The store's default time budget of 24 hours renders without wrapping. */
  lemma DefaultBudgetLabel()
    ensures FormatTimeRemaining(24 * 60 * 60 * 1000) == "24:00:00 left"
  {
    var ms := 24 * 60 * 60 * 1000;
    assert ms / 1000 == 86400 && 86400 / 60 == 1440 && 1440 / 60 == 24;
    assert 1440 % 60 == 0 && 86400 % 60 == 0;
    var hours := NatToString(24);
    assert hours == "24" by {
      assert NatToString(2) == "2";
      assert DigitChar(4) == '4';
    }
    var zero := PadStart2(NatToString(0));
    assert zero == "00";
    assert FormatTimeRemaining(ms) == hours + ":" + zero + ":" + zero + " left";
  }

  /** Math.round(a / b) for b > 0: the nearest integer, halves rounded up. */
  function RoundDiv(a: int, b: int): (r: int)
    requires b > 0
    ensures 2 * b * r - b <= 2 * a < 2 * b * r + b
  {
    var q := (2 * a + b) / (2 * b);
    assert 2 * b * q <= 2 * a + b < 2 * b * q + 2 * b;
    q
  }

  /** The number of decimal digits at the start of a string. */
  function LeadingDigits(s: string): (k: nat)
    ensures k <= |s| && AllDigits(s[..k])
    ensures k < |s| ==> !IsDigit(s[k])
  {
    if s == [] || !IsDigit(s[0]) then 0
    else
      var k := 1 + LeadingDigits(s[1..]);
      assert s[..k] == [s[0]] + s[1..][..k - 1];
      k
  }

  lemma {:induction false} LeadingDigitsOfConcat(digits: string, rest: string)
    requires AllDigits(digits)
    requires rest != [] && !IsDigit(rest[0])
    ensures LeadingDigits(digits + rest) == |digits|
  {
    if digits != [] {
      assert (digits + rest)[1..] == digits[1..] + rest;
      LeadingDigitsOfConcat(digits[1..], rest);
    }
  }

  lemma RoundDivMonotone(a1: int, a2: int, b: int)
    requires a1 <= a2 && b > 0
    ensures RoundDiv(a1, b) <= RoundDiv(a2, b)
  {
    var r1, r2 := RoundDiv(a1, b), RoundDiv(a2, b);
    assert 2 * b * (r1 - r2) < 2 * b;
    FactorBelowOne(2 * b, r1 - r2);
  }

  lemma FactorBelowOne(m: int, k: int)
    requires m > 0 && m * k < m
    ensures k < 1
  {
  }

  datatype Unit = Minute | Hour | Day | Month

  function UnitName(u: Unit): string
  {
    match u
    case Minute => "minute"
    case Hour => "hour"
    case Day => "day"
    case Month => "month"
  }

  /** What formatTimeAgo reports: nothing ("just now") or a count of one unit. */
  datatype Elapsed = JustNow | Ago(count: nat, unit: Unit)

  /** The chained roundings of formatTimeAgo: each unit is rounded from the
      previously rounded one. */
  function RoundedMinutes(diffMs: int): (m: int)
    ensures 120000 * m - 61000 <= 2 * diffMs < 120000 * m + 61000
  {
    RoundDiv(RoundDiv(diffMs, 1000), 60)
  }

  /** Rounding the rounded minutes drifts: the hours can be off by up to half
      an hour plus the minutes' own half minute. */
  function RoundedHours(diffMs: int): (h: int)
    ensures 7200000 * h - 3661000 <= 2 * diffMs < 7200000 * h + 3541000
  {
    var m := RoundedMinutes(diffMs);
    var h := RoundDiv(m, 60);
    assert 60 * h - 30 <= m <= 60 * h + 29;
    h
  }

  function RoundedDays(diffMs: int): (d: int)
    ensures 172800000 * d - 90061000 <= 2 * diffMs < 172800000 * d + 82741000
  {
    var h := RoundedHours(diffMs);
    var d := RoundDiv(h, 24);
    assert 24 * d - 12 <= h <= 24 * d + 11;
    d
  }

  /** The unit choice of formatTimeAgo: months past 28 days, then days,
      hours and minutes, the first whose rounded count is positive. */
  function ElapsedSince(now: int, past: int): (e: Elapsed)
    ensures e.Ago? && e.unit != Month ==> e.count >= 1
  {
    var diffMs := now - past;
    var diffMins := RoundedMinutes(diffMs);
    var diffHours := RoundedHours(diffMs);
    var diffDays := RoundedDays(diffMs);
    if diffDays > 28 then Ago(diffDays / 30, Month)
    else if diffDays > 0 then Ago(diffDays, Day)
    else if diffHours > 0 then Ago(diffHours, Hour)
    else if diffMins > 0 then Ago(diffMins, Minute)
    else JustNow
  }

  /** The text formatTimeAgo returns: "just now" exactly for no elapsed
      unit, otherwise the count's digits first and " ago" last. */
  function Phrase(e: Elapsed): (r: string)
    ensures r == "just now" <==> e.JustNow?
    ensures e.Ago? ==> |r| >= |NatToString(e.count)| + 4
                       && r[..|NatToString(e.count)|] == NatToString(e.count) && r[|r| - 4..] == " ago"
  {
    match e
    case JustNow => "just now"
    case Ago(n, u) =>
      var digits := NatToString(n);
      var r := digits + " " + UnitName(u) + (if n > 1 then "s" else "") + " ago";
      assert r[..|digits|] == digits && r[0] == digits[0];
      assert IsDigit(r[0]) && !IsDigit("just now"[0]);
      r
  }

  /** formatTimeAgo, with the current time as a parameter: the phrase reads
      back as the unit and rounded count that were measured. */
  function FormatTimeAgo(now: int, past: int): (r: string)
    ensures ParseElapsed(r) == Some(ElapsedSince(now, past))
  {
    PhraseRoundTrip(ElapsedSince(now, past));
    Phrase(ElapsedSince(now, past))
  }

  /** Reads back a formatTimeAgo phrase: "just now", or a count, a space,
      a unit name with or without the plural "s", and " ago". */
  function ParseElapsed(s: string): Option<Elapsed>
  {
    if s == "just now" then Some(JustNow) else ParseCount(s, LeadingDigits(s))
  }

  /** The rest of ParseElapsed once the first k characters are known to be digits. */
  function ParseCount(s: string, k: nat): Option<Elapsed>
    requires k <= |s| && AllDigits(s[..k])
  {
    if k == 0 || |s| < k + 5 || s[k] != ' ' || s[|s| - 4..] != " ago" then None
    else
      match UnitOf(s[k + 1..|s| - 4])
      case None => None
      case Some(u) => Some(Ago(Value(s[..k]), u))
  }

  function UnitOf(word: string): Option<Unit>
  {
    if word == "minute" || word == "minutes" then Some(Minute)
    else if word == "hour" || word == "hours" then Some(Hour)
    else if word == "day" || word == "days" then Some(Day)
    else if word == "month" || word == "months" then Some(Month)
    else None
  }

  /** The formatter never loses information: the phrase determines what was measured. */
  lemma {:induction false} PhraseRoundTrip(e: Elapsed)
    ensures ParseElapsed(Phrase(e)) == Some(e)
  {
    match e
    case JustNow =>
    case Ago(n, u) =>
      var word := UnitName(u) + (if n > 1 then "s" else "");
      assert UnitOf(word) == Some(u) by {
        if n > 1 { UnitOfPlural(u); } else { UnitOfSingular(u); }
      }
      assert Phrase(e) == NatToString(n) + " " + word + " ago";
      ParseCountPhrase(NatToString(n), word, u);
  }

  lemma ParseCountPhrase(digits: string, word: string, u: Unit)
    requires |digits| >= 1 && AllDigits(digits)
    requires UnitOf(word) == Some(u)
    ensures ParseElapsed(digits + " " + word + " ago") == Some(Ago(Value(digits), u))
  {
    var rest := " " + word + " ago";
    var s := digits + rest;
    assert s == digits + " " + word + " ago";
    LeadingDigitsOfConcat(digits, rest);
    var k := |digits|;
    assert s != "just now" by {
      assert IsDigit(s[0]);
    }
    assert ParseCount(s, k) == Some(Ago(Value(digits), u)) by {
      assert s[k] == ' ' && |s| >= k + 5;
      assert s[|s| - 4..] == " ago";
      assert s[k + 1..|s| - 4] == word;
      assert s[..k] == digits;
    }
  }

  lemma UnitOfSingular(u: Unit)
    ensures UnitOf(UnitName(u)) == Some(u)
  {
    match u
    case Minute =>
    case Hour => assert "hour" != "minute" && "hour" != "minutes";
    case Day => assert "day" != "minute" && "day" != "hour" && "day" != "minutes" && "day" != "hours";
    case Month =>
      assert "month"[1] != "minute"[1];
      assert "month" != "minutes" && "month" != "hour" && "month" != "hours" && "month" != "day" && "month" != "days";
  }

  lemma UnitOfPlural(u: Unit)
    ensures UnitOf(UnitName(u) + "s") == Some(u)
  {
    match u
    case Minute => assert UnitName(u) + "s" == "minutes";
    case Hour =>
      assert UnitName(u) + "s" == "hours";
      assert "hours" != "minute" && "hours" != "minutes";
    case Day =>
      assert UnitName(u) + "s" == "days";
      assert "days"[0] != "hour"[0];
      assert "days" != "minute" && "days" != "minutes" && "days" != "hours" && "days" != "day";
    case Month =>
      assert UnitName(u) + "s" == "months";
      assert "months"[1] != "minute"[1];
      assert "months" != "minutes" && "months" != "hour" && "months" != "hours" && "months" != "day" && "months" != "days";
  }

  /** The plural "s" appears exactly when the count exceeds one. */
  lemma PluralIffMoreThanOne(n: nat, u: Unit)
    ensures var s := Phrase(Ago(n, u));
      |s| >= 5 && s[|s| - 4..] == " ago" && (s[|s| - 5] == 's' <==> n > 1)
  {
    var s := Phrase(Ago(n, u));
    assert s[|s| - 4..] == " ago";
    var name := UnitName(u);
    assert name[|name| - 1] != 's';
  }

  /** A difference reads "just now" exactly when it is below 29.5 seconds,
      which includes every future date. */
  lemma JustNowIffUnderHalfMinute(now: int, past: int)
    ensures FormatTimeAgo(now, past) == "just now" <==> now - past < 29500
  {
    var d := now - past;
    MinutesPositiveIff(d);
    var e := ElapsedSince(now, past);
    if d < 29500 {
      RoundDivMonotone(RoundedMinutes(d), 0, 60);
      RoundDivMonotone(RoundedHours(d), 0, 24);
      assert e == JustNow;
    } else {
      assert e.Ago?;
      assert Phrase(e)[0] == NatToString(e.count)[0];
    }
  }

  /** Half a minute, rounded to whole seconds and then to minutes, is the first
      difference that counts as a minute. */
  lemma MinutesPositiveIff(d: int)
    ensures RoundedMinutes(d) > 0 <==> d >= 29500
  {
    var secs := RoundDiv(d, 1000);
    assert secs >= 30 <==> d >= 29500;
    assert RoundDiv(secs, 60) > 0 <==> secs >= 30;
  }

  /** A later past date never reports a larger unit than an earlier one. */
  function Rank(e: Elapsed): nat
  {
    match e
    case JustNow => 0
    case Ago(_, u) => match u case Minute => 1 case Hour => 2 case Day => 3 case Month => 4
  }

  lemma UnitMonotone(now: int, past1: int, past2: int)
    requires past2 <= past1
    ensures Rank(ElapsedSince(now, past1)) <= Rank(ElapsedSince(now, past2))
  {
    var d1, d2 := now - past1, now - past2;
    RoundDivMonotone(d1, d2, 1000);
    RoundDivMonotone(RoundDiv(d1, 1000), RoundDiv(d2, 1000), 60);
    RoundDivMonotone(RoundedMinutes(d1), RoundedMinutes(d2), 60);
    RoundDivMonotone(RoundedHours(d1), RoundedHours(d2), 24);
  }

  /** Rounding from already rounded hours: twelve hours report a whole day. */
  lemma HalfDayIsOneDay(now: int)
    ensures FormatTimeAgo(now, now - 12 * MillisPerHour) == "1 day ago"
  {
    assert RoundDiv(12 * MillisPerHour, 1000) == 43200;
    assert RoundDiv(43200, 60) == 720;
    assert RoundDiv(720, 60) == 12;
    assert RoundDiv(12, 24) == 1;
    assert NatToString(1) == "1";
  }

  /** 29 rounded days pass the month threshold but floor to zero months. */
  lemma TwentyNineDaysIsZeroMonths(now: int)
    ensures FormatTimeAgo(now, now - 29 * 24 * MillisPerHour) == "0 month ago"
  {
    assert RoundDiv(29 * 24 * MillisPerHour, 1000) == 29 * 24 * 3600;
    assert RoundDiv(29 * 24 * 3600, 60) == 29 * 24 * 60;
    assert RoundDiv(29 * 24 * 60, 60) == 29 * 24;
    assert RoundDiv(29 * 24, 24) == 29;
    assert NatToString(0) == "0";
  }
}
