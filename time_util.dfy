/**
 * The clock line of the dashboard (src/time_util.cpp): setting the RTC from
 * the broken-down local time, formatting the date and time into a 23-byte
 * buffer, and the `lastTime` cache that redraws the line only when it
 * changes.
 */
module TimeUtil {
  import opened Wrappers
  import opened CStrings

  /** `wd`: weekday abbreviations indexed by the RTC's `week`, Sunday first
      (Thursday is spelt "Thr"). */
  const Weekdays: seq<string> := ["Sun", "Mon", "Tue", "Wed", "Thr", "Fri", "Sat"]

  /** The RTC's time and date registers (`RTCtime`, `RTCDate`). */
  datatype RtcTime = RtcTime(hour: int, min: int, sec: int)
  datatype RtcDate = RtcDate(week: int, mon: int, day: int, year: int)

  /** The fields of the `struct tm` from `localtime` used here; `tmWday` is
      kept only to show that `setupRTCTime` does not copy it. */
  datatype Tm = Tm(tmSec: int, tmMin: int, tmHour: int, tmMday: int, tmMon: int, tmYear: int, tmWday: int)

  /** The initial contents of `lastTime`. */
  const InitialLastTime: string := "0000/00/00 (000) 00:00"

  /** Size of the `currentTime` and `lastTime` buffers, terminator included. */
  const TimeBufferSize: nat := 23

  // ---------------------------------------------------------------------------
  // printf integer conversions

  predicate IsDigit(c: char)
  {
    '0' <= c <= '9'
  }

  function DigitChar(d: int): (c: char)
    requires 0 <= d < 10
    ensures IsDigit(c)
  {
    ('0' as int + d) as char
  }

  /** The decimal digits of `n`, most significant first, without leading zeros. */
  function Digits(n: nat): (s: string)
    ensures |s| >= 1 && (|s| == 1 <==> n < 10)
    ensures forall i :: 0 <= i < |s| ==> IsDigit(s[i])
    ensures s[0] == '0' <==> n == 0
  {
    if n < 10 then [DigitChar(n)] else Digits(n / 10) + [DigitChar(n % 10)]
  }

  /** The number a string of decimal digits denotes. */
  function DigitsValue(s: string): (n: nat)
    requires forall i :: 0 <= i < |s| ==> IsDigit(s[i])
  {
    if s == [] then 0
    else
      assert IsDigit(s[|s| - 1]);
      DigitsValue(s[..|s| - 1]) * 10 + (s[|s| - 1] as int - '0' as int)
  }

  /** The digits read back as the number they were made from. */
  lemma {:induction false} DigitsRoundTrip(n: nat)
    ensures DigitsValue(Digits(n)) == n
  {
    if n >= 10 {
      DigitsRoundTrip(n / 10);
      var s := Digits(n);
      assert s[..|s| - 1] == Digits(n / 10);
    }
  }

  /** A leading zero does not change the value. */
  lemma {:induction false} LeadingZero(s: string)
    requires forall i :: 0 <= i < |s| ==> IsDigit(s[i])
    ensures DigitsValue(['0'] + s) == DigitsValue(s)
  {
    if s != [] {
      LeadingZero(s[..|s| - 1]);
      assert (['0'] + s)[..|s|] == ['0'] + s[..|s| - 1];
    }
  }

  /** `%d`. */
  function FormatInt(n: int): (s: string)
    ensures |s| >= 1 && '\0' !in s
  {
    if n < 0 then "-" + Digits(-n) else Digits(n)
  }

  /** `%02d`: at least two characters, a single digit padded with a zero. */
  function FormatInt02(n: int): (s: string)
    ensures |s| >= 2 && '\0' !in s
  {
    if 0 <= n < 10 then "0" + Digits(n) else FormatInt(n)
  }

  /** Both conversions print the value. `%d` prints no leading zero (except
      for zero itself); `%02d` starts with a zero exactly for the one-digit
      values it pads, and a value below 100 takes exactly two characters. */
  lemma FormatRoundTrip(n: nat)
    ensures DigitsValue(FormatInt(n)) == n
    ensures DigitsValue(FormatInt02(n)) == n
    ensures FormatInt(n)[0] == '0' <==> n == 0
    ensures FormatInt02(n)[0] == '0' <==> n < 10
    ensures n >= 10 ==> FormatInt02(n) == FormatInt(n)
    ensures n < 100 ==> |FormatInt02(n)| == 2
  {
    DigitsRoundTrip(n);
    if n < 10 {
      LeadingZero(Digits(n));
    } else if n < 100 {
      assert |Digits(n / 10)| == 1;
    }
  }

  /** A four-digit year prints as four characters. */
  lemma FourDigitYear(year: int)
    requires 1000 <= year <= 9999
    ensures |FormatInt(year)| == 4
  {
    assert |Digits(year / 1000)| == 1;
    assert |Digits(year / 100)| == 2;
    assert |Digits(year / 10)| == 3;
  }

  // ---------------------------------------------------------------------------
  // The clock line

  /** `"%d/%02d/%02d (%s) %02d:%02d"` of year, month, day, weekday name, hour
      and minute. Indexing `wd` needs a weekday in 0..6. Besides the five
      numbers the line holds ten characters: the separators and the
      three-letter day name. */
  function DateTimeString(date: RtcDate, time: RtcTime): (line: string)
    requires 0 <= date.week < 7
    ensures |line| == |FormatInt(date.year)| + |FormatInt02(date.mon)| + |FormatInt02(date.day)|
                      + |FormatInt02(time.hour)| + |FormatInt02(time.min)| + 10
  {
    WeekdayNames(date.week);
    FormatInt(date.year) + "/" + FormatInt02(date.mon) + "/" + FormatInt02(date.day)
      + " (" + Weekdays[date.week] + ") " + FormatInt02(time.hour) + ":" + FormatInt02(time.min)
  }

  lemma WeekdayNames(week: int)
    requires 0 <= week < 7
    ensures |Weekdays[week]| == 3 && '\0' !in Weekdays[week]
  {
  }

  /** The line holds no NUL, so the C string written is the whole line. */
  lemma DateTimeStringHasNoNul(date: RtcDate, time: RtcTime)
    requires 0 <= date.week < 7
    ensures '\0' !in DateTimeString(date, time)
  {
    WeekdayNames(date.week);
    var prefix := FormatInt(date.year) + "/" + FormatInt02(date.mon) + "/" + FormatInt02(date.day);
    assert '\0' !in prefix;
    assert '\0' !in prefix + " (" + Weekdays[date.week] + ") ";
  }

  /** Where the weekday name starts in the clock line: just after " (". */
  function NameStart(date: RtcDate): (p: nat)
    ensures p >= 2
  {
    |FormatInt(date.year) + "/" + FormatInt02(date.mon) + "/" + FormatInt02(date.day) + " ("|
  }

  /** The clock line has '(' just before the weekday name, and the name's
      first letter right after it. */
  lemma DateTimeStringAtName(date: RtcDate, time: RtcTime)
    requires 0 <= date.week < 7
    ensures NameStart(date) + 3 <= |DateTimeString(date, time)|
    ensures DateTimeString(date, time)[NameStart(date) - 1] == '('
    ensures DateTimeString(date, time)[NameStart(date)] == Weekdays[date.week][0]
  {
    var prefix := FormatInt(date.year) + "/" + FormatInt02(date.mon) + "/" + FormatInt02(date.day) + " (";
    var name := Weekdays[date.week];
    var rest := ") " + FormatInt02(time.hour) + ":" + FormatInt02(time.min);
    WeekdayNames(date.week);
    assert DateTimeString(date, time) == prefix + (name + rest);
    assert prefix[|prefix| - 1] == '(';
  }

  /** The initial `lastTime` has a single '(', at index 11, followed by '0'. */
  lemma InitialLastTimeParen(i: int)
    requires 0 <= i < |InitialLastTime| && InitialLastTime[i] == '('
    ensures i == 11 && InitialLastTime[12] == '0'
  {
  }

  /** No line equals the initial `lastTime`, whose weekday "000" names no
      day, so the first `showDateTime` always draws. */
  lemma InitialLastTimeIsNoLine(date: RtcDate, time: RtcTime)
    requires 0 <= date.week < 7
    ensures DateTimeString(date, time) != InitialLastTime
  {
    var line := DateTimeString(date, time);
    var p := NameStart(date);
    DateTimeStringAtName(date, time);
    if |line| == |InitialLastTime| && line[p - 1] == InitialLastTime[p - 1] {
      InitialLastTimeParen(p - 1);
      assert line[p] != InitialLastTime[p];
    }
  }

  /** With a four-digit year and two-digit fields the line is exactly 22
      characters, so it fits `currentTime[23]` with its terminator. */
  lemma DateTimeStringLength(date: RtcDate, time: RtcTime)
    requires 0 <= date.week < 7
    requires 1000 <= date.year <= 9999
    requires 0 <= date.mon < 100 && 0 <= date.day < 100
    requires 0 <= time.hour < 100 && 0 <= time.min < 100
    ensures |DateTimeString(date, time)| == TimeBufferSize - 1
  {
    WeekdayNames(date.week);
    FourDigitYear(date.year);
    FormatRoundTrip(date.mon);
    FormatRoundTrip(date.day);
    FormatRoundTrip(time.hour);
    FormatRoundTrip(time.min);
  }

  /** The global RTC structs that `setupRTCTime` fills. */
  class Rtc {
    var rtcTime: RtcTime
    var rtcDate: RtcDate

    constructor ()
      ensures rtcTime == RtcTime(0, 0, 0) && rtcDate == RtcDate(0, 0, 0, 0)
    {
      rtcTime := RtcTime(0, 0, 0);
      rtcDate := RtcDate(0, 0, 0, 0);
    }

    /** `setupRTCTime`, given the `localtime` result: hour, minute, second and
        day are copied, the year is offset by 1900 and the month by one. The
        weekday is not copied: `week` keeps its previous value. */
    method SetupRtcTime(tm: Tm)
      modifies this
      ensures rtcTime == RtcTime(tm.tmHour, tm.tmMin, tm.tmSec)
      ensures rtcDate == RtcDate(old(rtcDate.week), tm.tmMon + 1, tm.tmMday, tm.tmYear + 1900)
    {
      rtcTime := rtcTime.(hour := tm.tmHour);
      rtcTime := rtcTime.(min := tm.tmMin);
      rtcTime := rtcTime.(sec := tm.tmSec);

      rtcDate := rtcDate.(year := tm.tmYear + 1900);
      rtcDate := rtcDate.(mon := tm.tmMon + 1);
      rtcDate := rtcDate.(day := tm.tmMday);
    }
  }

  /** The state of `showDateTime`: the `lastTime` buffer holding the line
      drawn last. */
  class DateTimeDisplay {
    const lastTime: array<char>

    ghost predicate Valid()
      reads this, lastTime
    {
      lastTime.Length == TimeBufferSize && '\0' in lastTime[..]
    }

    /** The line `lastTime` holds. */
    ghost function LastTime(): (text: string)
      reads this, lastTime
      requires Valid()
    {
      CString(lastTime[..])
    }

    constructor ()
      ensures Valid() && fresh(lastTime)
      ensures LastTime() == InitialLastTime
    {
      var buffer := new char[TimeBufferSize];
      WriteCString(buffer, InitialLastTime);
      lastTime := buffer;
    }

    /** `showDateTime`: formats the line into `currentTime`, and when it
        differs from `lastTime` draws it and copies it into `lastTime`.
        `drawn` is the line handed to `drawDateTime`, `None` when nothing is
        drawn. The line must fit the 23-byte buffer. */
    method ShowDateTime(date: RtcDate, time: RtcTime) returns (drawn: Option<string>)
      requires Valid()
      requires 0 <= date.week < 7
      requires |DateTimeString(date, time)| < TimeBufferSize
      modifies lastTime
      ensures Valid()
      ensures LastTime() == DateTimeString(date, time)
      ensures drawn == if old(LastTime()) == LastTime() then None else Some(LastTime())
    {
      var currentTime := new char[TimeBufferSize];
      var line := DateTimeString(date, time);
      DateTimeStringHasNoNul(date, time);
      WriteCString(currentTime, line);

      if CString(lastTime[..]) != CString(currentTime[..]) {
        drawn := Some(line);
        StrCpy(lastTime, currentTime);
      } else {
        drawn := None;
      }
      // The copied line is shorter than the buffer, so its terminator is in it.
      assert lastTime[..][|CString(lastTime[..])|] == '\0';
    }
  }
}
