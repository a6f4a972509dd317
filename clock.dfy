/**
 * Time handling of the three scrapers, with the clock as a parameter.
 *
 * A Python `datetime` is modelled to the second as a wall-clock reading
 * (seconds since 1970-01-01 00:00:00 on that clock) and an optional UTC
 * offset: `None` is a naive value, `Some(o)` an aware one whose instant is
 * `wall - o`. Hong Kong is the fixed offset +08:00.
 */
module Clock {
  import opened Text

  const Minute: int := 60
  const Hour: int := 3600
  const Day: int := 86400
  /** Hong Kong's offset from UTC, +08:00. */
  const HongKong: int := 8 * Hour

  datatype DateTime = DateTime(wall: int, offset: Option<int>)
  {
    predicate Aware()
    {
      offset.Some?
    }

    /** Seconds since the Unix epoch of an aware value. */
    function Instant(): int
      requires Aware()
    {
      wall - offset.value
    }
  }

  /** `datetime.now(HONG_KONG_TZ)` at the instant `nowUtc`. */
  function NowInHongKong(nowUtc: int): (d: DateTime)
    ensures d.Aware() && d.Instant() == nowUtc
  {
    DateTime(nowUtc + HongKong, Some(HongKong))
  }

  // ---------------------------------------------------------------------
  // Calendar

  predicate IsLeapYear(y: int)
  {
    y % 4 == 0 && (y % 100 != 0 || y % 400 == 0)
  }

  function DaysInMonth(y: int, m: int): int
    requires 1 <= m <= 12
  {
    if m == 2 then (if IsLeapYear(y) then 29 else 28)
    else if m == 4 || m == 6 || m == 9 || m == 11 then 30
    else 31
  }

  /** The dates Python's `date` accepts. */
  predicate ValidDate(y: int, m: int, d: int)
  {
    1 <= y <= 9999 && 1 <= m <= 12 && 1 <= d <= DaysInMonth(y, m)
  }

  /** Days from 1970-01-01 to the given proleptic Gregorian date. */
  function DaysFromCivil(y: int, m: int, d: int): int
    requires 1 <= m <= 12
  {
    var y' := if m <= 2 then y - 1 else y;
    var era := y' / 400;
    var yoe := y' - era * 400;
    var mp := if m > 2 then m - 3 else m + 9;
    var doy := (153 * mp + 2) / 5 + d - 1;
    var doe := yoe * 365 + yoe / 4 - yoe / 100 + doy;
    era * 146097 + doe - 719468
  }

  datatype Civil = Civil(year: int, month: int, day: int)

  /** Year of era and day of year (from March 1st) of a day of era. */
  function YearOfEra(doe: int): (r: (int, int))
    requires 0 <= doe <= 146096
    ensures 0 <= r.0 <= 399 && 0 <= r.1 <= 365
    ensures doe == r.0 * 365 + r.0 / 4 - r.0 / 100 + r.1
  {
    var cent := if doe / 36524 > 3 then 3 else doe / 36524;
    var r1 := doe - cent * 36524;
    assert 0 <= r1 <= 36524;
    var quad := r1 / 1461;
    assert 0 <= quad <= 24;
    var r2 := r1 - quad * 1461;
    assert 0 <= r2 <= 1460;
    var yr := if r2 / 365 > 3 then 3 else r2 / 365;
    var doy := r2 - yr * 365;
    var yoe := cent * 100 + quad * 4 + yr;
    assert yoe / 4 == cent * 25 + quad by {
      assert yoe == (cent * 25 + quad) * 4 + yr;
    }
    assert yoe / 100 == cent by {
      assert yoe == cent * 100 + (quad * 4 + yr);
    }
    (yoe, doy)
  }

  /** Month (counted from March) and day of a day of year. */
  function MonthOfYear(doy: int): (r: (int, int))
    requires 0 <= doy <= 365
    ensures 0 <= r.0 <= 11 && 1 <= r.1 <= 31
    ensures (153 * r.0 + 2) / 5 + r.1 - 1 == doy
  {
    var mp := (5 * doy + 2) / 153;
    (mp, doy - (153 * mp + 2) / 5 + 1)
  }

  /** The date `z` days after 1970-01-01 (years counted from March 1st). */
  function CivilFromDays(z: int): (c: Civil)
    ensures 1 <= c.month <= 12 && 1 <= c.day <= 31
    ensures DaysFromCivil(c.year, c.month, c.day) == z
  {
    var era := (z + 719468) / 146097;
    var doe := z + 719468 - era * 146097;
    EraOfDay(z);
    var yd := YearOfEra(doe);
    var yoe, doy := yd.0, yd.1;
    var md := MonthOfYear(doy);
    var mp, d := md.0, md.1;
    var m := if mp < 10 then mp + 3 else mp - 9;
    var y := yoe + era * 400 + (if m <= 2 then 1 else 0);
    DaysFromParts(era, yoe, doy, mp, d);
    Civil(y, m, d)
  }

  /** Reassembling an era, a year of era and a month-and-day gives back the day count. */
  lemma DaysFromParts(era: int, yoe: int, doy: int, mp: int, d: int)
    requires 0 <= yoe <= 399 && 0 <= mp <= 11 && 1 <= d <= 31
    requires (153 * mp + 2) / 5 + d - 1 == doy
    ensures var m := if mp < 10 then mp + 3 else mp - 9;
      var y := yoe + era * 400 + (if m <= 2 then 1 else 0);
      1 <= m <= 12 && DaysFromCivil(y, m, d) == era * 146097 + (yoe * 365 + yoe / 4 - yoe / 100 + doy) - 719468
  {
    var m := if mp < 10 then mp + 3 else mp - 9;
    var y := yoe + era * 400 + (if m <= 2 then 1 else 0);
    EraOfYear(era, yoe);
    assert (if m <= 2 then y - 1 else y) == yoe + era * 400;
    assert (if m > 2 then m - 3 else m + 9) == mp;
  }

  /** Splitting a day count into 400-year eras leaves a day of era. */
  lemma EraOfDay(z: int)
    ensures 0 <= z + 719468 - (z + 719468) / 146097 * 146097 <= 146096
  {
  }

  /** The era of a year is recovered from its year of era. */
  lemma EraOfYear(era: int, yoe: int)
    requires 0 <= yoe <= 399
    ensures (yoe + era * 400) / 400 == era && (yoe + era * 400) - (yoe + era * 400) / 400 * 400 == yoe
  {
  }

  // ---------------------------------------------------------------------
  // Digits

  function DigitValue(c: char): int
    requires IsDigit(c)
  {
    c as int - '0' as int
  }

  predicate AllDigits(s: string)
  {
    forall i :: 0 <= i < |s| ==> IsDigit(s[i])
  }

  /** `int(s)` of a run of ASCII digits. */
  function Number(s: string): nat
    requires AllDigits(s)
  {
    if s == [] then 0 else 10 * Number(s[..|s| - 1]) + DigitValue(s[|s| - 1])
  }

  /** The fixed-width field `s[i..i+n]` read as a decimal number. */
  function Field(s: string, i: nat, n: nat): Option<nat>
    requires i + n <= |s|
  {
    if AllDigits(s[i..i + n]) then Some(Number(s[i..i + n])) else None
  }

  // ---------------------------------------------------------------------
  // `datetime.fromisoformat`, restricted to
  //   YYYY-MM-DD[(T| )HH:MM[:SS][(+|-)HH:MM]]

  /** Days since the epoch of a `YYYY-MM-DD` date. */
  function ParseDate(s: string): Option<int>
    requires |s| == 10
  {
    if s[4] != '-' || s[7] != '-' then None
    else match (Field(s, 0, 4), Field(s, 5, 2), Field(s, 8, 2))
      case (Some(y), Some(m), Some(d)) =>
        if ValidDate(y, m, d) then Some(DaysFromCivil(y, m, d)) else None
      case _ => None
  }

  /** Seconds since midnight of `HH:MM` or `HH:MM:SS`. */
  function ParseClock(s: string): Option<int>
  {
    if (|s| != 5 && |s| != 8) || s[2] != ':' || (|s| == 8 && s[5] != ':') then None
    else match (Field(s, 0, 2), Field(s, 3, 2), if |s| == 8 then Field(s, 6, 2) else Some(0))
      case (Some(h), Some(m), Some(sec)) =>
        if h <= 23 && m <= 59 && sec <= 59 then Some(h * Hour + m * Minute + sec) else None
      case _ => None
  }

  /** A UTC offset `+HH:MM` or `-HH:MM`, in seconds. */
  function ParseOffset(s: string): Option<int>
    requires |s| == 6
  {
    if (s[0] != '+' && s[0] != '-') || s[3] != ':' then None
    else match (Field(s, 1, 2), Field(s, 4, 2))
      case (Some(h), Some(m)) =>
        if h <= 23 && m <= 59 then Some(if s[0] == '-' then -(h * Hour + m * Minute) else h * Hour + m * Minute)
        else None
      case _ => None
  }

  function IsoParse(s: string): Option<DateTime>
  {
    if |s| < 10 then None
    else match ParseDate(s[..10])
      case None => None
      case Some(days) =>
        if |s| == 10 then Some(DateTime(days * Day, None))
        else if s[10] != 'T' && s[10] != ' ' then None
        else
          var rest := s[11..];
          if |rest| == 5 || |rest| == 8 then
            match ParseClock(rest)
            case None => None
            case Some(t) => Some(DateTime(days * Day + t, None))
          else if |rest| == 11 || |rest| == 14 then
            match (ParseClock(rest[..|rest| - 6]), ParseOffset(rest[|rest| - 6..]))
            case (Some(t), Some(o)) => Some(DateTime(days * Day + t, Some(o)))
            case _ => None
          else None
  }

  // ---------------------------------------------------------------------
  // The offset rewrite of hkdiscuss.py, as written: `Z` becomes `+00:00`;
  // otherwise any `+` or `-` in the string makes a `:` go in before the
  // last two characters (Python slices `[:-2]` and `[-2:]`).

  function RewriteOffset(s: string): string
  {
    if |s| > 0 && s[|s| - 1] == 'Z' then s[..|s| - 1] + "+00:00"
    else if '+' in s || '-' in s then
      var cut := if |s| >= 2 then |s| - 2 else 0;
      s[..cut] + ":" + s[cut..]
    else s
  }

  /** `Z` is rewritten to `+00:00`. */
  lemma RewriteZulu(p: string)
    ensures RewriteOffset(p + "Z") == p + "+00:00"
  {
    assert (p + "Z")[..|p|] == p;
  }

  /** A compact offset `+HHMM` or `-HHMM` gets its colon. */
  lemma RewriteCompactOffset(p: string, sign: char, hhmm: string)
    requires sign == '+' || sign == '-'
    requires |hhmm| == 4 && AllDigits(hhmm)
    ensures RewriteOffset(p + [sign] + hhmm) == p + [sign] + hhmm[..2] + ":" + hhmm[2..]
  {
    var s := p + [sign] + hhmm;
    assert s[|p|] == sign;
    assert s[..|s| - 2] == p + [sign] + hhmm[..2];
    assert s[|s| - 2..] == hhmm[2..];
  }

  /** Any string holding `+` or `-` (every ISO date does) gains exactly one character. */
  lemma RewriteInsertsColon(s: string)
    requires |s| >= 2 && s[|s| - 1] != 'Z' && ('+' in s || '-' in s)
    ensures var r := RewriteOffset(s);
      |r| == |s| + 1 && r[|s| - 2] == ':' && r[..|s| - 2] + r[|s| - 1..] == s
  {
    var r := RewriteOffset(s);
    assert r == s[..|s| - 2] + ":" + s[|s| - 2..];
    assert r[..|s| - 2] == s[..|s| - 2];
    assert r[|s| - 1..] == s[|s| - 2..];
  }

  /** Appending a well-formed offset to a naive date-time gives the aware value. */
  lemma IsoParseWithOffset(p: string, o: string, w: int, off: int)
    requires |p| == 16 || |p| == 19
    requires IsoParse(p) == Some(DateTime(w, None))
    requires |o| == 6 && ParseOffset(o) == Some(off)
    ensures IsoParse(p + o) == Some(DateTime(w, Some(off)))
  {
    var s := p + o;
    assert s[..10] == p[..10];
    assert s[10] == p[10];
    var rest := s[11..];
    assert rest[..|rest| - 6] == p[11..];
    assert rest[|rest| - 6..] == o;
  }

  /** A trailing `Z` is read as UTC once rewritten. */
  lemma RewriteZuluParses(p: string, w: int)
    requires |p| == 16 || |p| == 19
    requires IsoParse(p) == Some(DateTime(w, None))
    ensures IsoParse(RewriteOffset(p + "Z")) == Some(DateTime(w, Some(0)))
  {
    RewriteZulu(p);
    assert ParseOffset("+00:00") == Some(0) by {
      assert "+00:00"[1..3] == "00" && "+00:00"[4..6] == "00";
      assert "00"[..1] == "0" && "0"[..0] == [];
    }
    IsoParseWithOffset(p, "+00:00", w, 0);
  }

  lemma ParseOffsetOf(hh: string, mm: string)
    requires |hh| == 2 && AllDigits(hh) && |mm| == 2 && AllDigits(mm)
    requires Number(hh) <= 23 && Number(mm) <= 59
    ensures ParseOffset("+" + hh + ":" + mm) == Some(Number(hh) * Hour + Number(mm) * Minute)
  {
    var o := "+" + hh + ":" + mm;
    assert o[1..3] == hh && o[4..6] == mm;
  }

  /** A compact `+HHMM` offset is read as +HH:MM once rewritten. */
  lemma RewriteCompactParses(p: string, w: int, hhmm: string)
    requires |p| == 16 || |p| == 19
    requires IsoParse(p) == Some(DateTime(w, None))
    requires |hhmm| == 4 && AllDigits(hhmm)
    requires Number(hhmm[..2]) <= 23 && Number(hhmm[2..]) <= 59
    ensures IsoParse(RewriteOffset(p + "+" + hhmm))
         == Some(DateTime(w, Some(Number(hhmm[..2]) * Hour + Number(hhmm[2..]) * Minute)))
  {
    var o := "+" + hhmm[..2] + ":" + hhmm[2..];
    CompactRewriteSplits(p, hhmm);
    CompactOffsetParses(hhmm);
    IsoParseWithOffset(p, o, w, Number(hhmm[..2]) * Hour + Number(hhmm[2..]) * Minute);
  }

  lemma CompactRewriteSplits(p: string, hhmm: string)
    requires |hhmm| == 4 && AllDigits(hhmm)
    ensures RewriteOffset(p + "+" + hhmm) == p + ("+" + hhmm[..2] + ":" + hhmm[2..])
  {
    assert p + "+" + hhmm == p + ['+'] + hhmm;
    RewriteCompactOffset(p, '+', hhmm);
    assert p + ['+'] + hhmm[..2] + ":" + hhmm[2..] == p + ("+" + hhmm[..2] + ":" + hhmm[2..]);
  }

  lemma CompactOffsetParses(hhmm: string)
    requires |hhmm| == 4 && AllDigits(hhmm)
    requires Number(hhmm[..2]) <= 23 && Number(hhmm[2..]) <= 59
    ensures ParseOffset("+" + hhmm[..2] + ":" + hhmm[2..]) == Some(Number(hhmm[..2]) * Hour + Number(hhmm[2..]) * Minute)
  {
    var hh, mm := hhmm[..2], hhmm[2..];
    assert forall i :: 0 <= i < 2 ==> hh[i] == hhmm[i] && mm[i] == hhmm[i + 2];
    ParseOffsetOf(hh, mm);
  }

  /**
   * The rule as written also fires on a date without an offset, because
   * the date's own `-` matches: a compact time `THHMM` gets a colon and the
   * value reads as a naive `THH:MM`.
   */
  lemma RewriteCompactTimeStaysNaive(date: string, hh: string, mm: string, w: int)
    requires '-' in date && |hh| == 2 && |mm| == 2 && AllDigits(mm)
    requires IsoParse(date + hh + ":" + mm) == Some(DateTime(w, None))
    ensures IsoParse(RewriteOffset(date + hh + mm)) == Some(DateTime(w, None))
  {
    var s := date + hh + mm;
    var k :| 0 <= k < |date| && date[k] == '-';
    assert s[k] == '-';
    assert s[|s| - 1] == mm[1];
    assert s[..|s| - 2] == date + hh && s[|s| - 2..] == mm;
  }

  /**
   * The rule as written also fires on an offset that already has its
   * colon: `+HH:MM` becomes `+HH::MM`.
   */
  lemma RewriteDoublesColon(p: string, sign: char, hh: string, mm: string)
    requires sign == '+' || sign == '-'
    requires |hh| == 2 && |mm| == 2 && AllDigits(mm)
    ensures RewriteOffset(p + [sign] + hh + ":" + mm) == p + [sign, hh[0], hh[1], ':', ':', mm[0], mm[1]]
  {
    var s := p + [sign] + hh + ":" + mm;
    assert s[|p|] == sign;
    assert s[..|s| - 2] == p + [sign] + hh + ":";
    assert s[|s| - 2..] == mm;
    assert hh == [hh[0], hh[1]] && mm == [mm[0], mm[1]];
    assert RewriteOffset(s) == p + [sign] + hh + ":" + ":" + mm;
  }

  /** A string ending in a doubled colon offset `+HH::MM` does not parse. */
  lemma DoubledColonUnparsable(p: string, tail: string)
    requires |tail| == 7 && (tail[0] == '+' || tail[0] == '-') && IsDigit(tail[1]) && IsDigit(tail[2])
    requires tail[3] == ':' && tail[4] == ':'
    ensures IsoParse(p + tail) == None
  {
    if |p| <= 10 {
      ShortDoubledColonUnparsable(p, tail);
    } else {
      var r := p + tail;
      var rest := r[11..];
      assert rest == p[11..] + tail;
      if ParseDate(r[..10]).Some? && (r[10] == 'T' || r[10] == ' ') {
        if |rest| == 8 {
          assert rest[1..] == tail;
          ClockRefused(rest);
        } else if |rest| == 11 || |rest| == 14 {
          assert rest[|rest| - 6..] == tail[1..];
          OffsetRefused(rest[|rest| - 6..]);
        }
      }
    }
  }

  /** With at most ten characters before it, the offset falls inside the date or on the separator. */
  lemma ShortDoubledColonUnparsable(p: string, tail: string)
    requires |p| <= 10
    requires |tail| == 7 && (tail[0] == '+' || tail[0] == '-') && IsDigit(tail[1]) && IsDigit(tail[2])
    requires tail[3] == ':' && tail[4] == ':'
    ensures IsoParse(p + tail) == None
  {
    var r := p + tail;
    assert forall i :: 0 <= i < 7 ==> r[|p| + i] == tail[i];
    if |r| >= 10 {
      var d := r[..10];
      assert forall i :: 0 <= i < 10 ==> d[i] == r[i];
      if |p| == 10 {
        assert r[10] == tail[0];
      } else if |p| == 7 {
        assert r[10] == tail[3];
      } else {
        DateRefused(d);
      }
    }
  }

  /** A date whose dashes or fields are not all in place is refused. */
  lemma DateRefused(d: string)
    requires |d| == 10
    requires d[4] != '-' || d[7] != '-' || !IsDigit(d[8]) || !IsDigit(d[9]) || !IsDigit(d[5]) || !IsDigit(d[6])
    ensures ParseDate(d) == None
  {
    if d[4] == '-' && d[7] == '-' {
      if !IsDigit(d[8]) || !IsDigit(d[9]) {
        assert d[8..10][0] == d[8] && d[8..10][1] == d[9];
        assert Field(d, 8, 2).None?;
      } else {
        assert d[5..7][0] == d[5] && d[5..7][1] == d[6];
        assert Field(d, 5, 2).None?;
      }
    }
  }

  /** A clock `HH:MM:SS` with a colon where the minutes go is refused. */
  lemma ClockRefused(c: string)
    requires |c| == 8 && c[4] == ':'
    ensures ParseClock(c) == None
  {
    assert c[3..5][1] == c[4];
    assert Field(c, 3, 2).None?;
  }

  /** An offset that starts with a digit is refused. */
  lemma OffsetRefused(o: string)
    requires |o| == 6 && IsDigit(o[0])
    ensures ParseOffset(o) == None
  {
  }

  /** Hence an ISO string that already carries `+HH:MM` is refused after the rewrite. */
  lemma RewriteBreaksColonOffset(p: string, sign: char, hh: string, mm: string)
    requires sign == '+' || sign == '-'
    requires |hh| == 2 && AllDigits(hh) && |mm| == 2 && AllDigits(mm)
    ensures IsoParse(RewriteOffset(p + [sign] + hh + ":" + mm)) == None
  {
    RewriteDoublesColon(p, sign, hh, mm);
    DoubledColonUnparsable(p, [sign, hh[0], hh[1], ':', ':', mm[0], mm[1]]);
  }

  /**
   * A naive date-time with minutes or seconds holds `-`, so it also gets a
   * colon before its last two characters, and the result does not parse.
   */
  lemma RewriteBreaksNaive(s: string)
    requires |s| == 16 || |s| == 19
    requires IsoParse(s).Some?
    ensures IsoParse(RewriteOffset(s)) == None
  {
    assert s[4] == '-';
    var r := RewriteOffset(s);
    assert r == s[..|s| - 2] + ":" + s[|s| - 2..];
    assert |r| == |s| + 1;
    assert r[..10] == s[..10];
    assert |r[11..]| == |s| - 10;
  }

  // ---------------------------------------------------------------------
  // `parse_time` of hkdiscuss.py: the `title` attribute read with
  // `%Y-%m-%d %H:%M` at +08:00, or the current UTC time on any failure.

  datatype TimeElement = TimeElement(title: Option<string>)

  /** `%m`: one digit from 1 to 9, or two digits from 01 to 12. */
  function MonthField(f: string): Option<nat>
  {
    if (|f| == 1 || |f| == 2) && AllDigits(f) && 1 <= Number(f) <= 12 then Some(Number(f)) else None
  }

  /** `%d`: one digit from 1 to 9, a space and such a digit, or two digits from 01 to 31. */
  function DayField(f: string): Option<nat>
  {
    if |f| == 2 && f[0] == ' ' && IsDigit(f[1]) && f[1] != '0' then Some(DigitValue(f[1]))
    else if (|f| == 1 || |f| == 2) && AllDigits(f) && 1 <= Number(f) <= 31 then Some(Number(f))
    else None
  }

  /**
   * `datetime.strptime(s, '%Y-%m-%d %H:%M')`: four digits, `-`, a month as
   * `%m` reads it, `-`, a day as `%d` reads it, a run of whitespace (the
   * format's space), then `%H:%M` to the end of the string; the date must
   * exist.
   */
  function ParseStamp(s: string): (r: Option<DateTime>)
    ensures r.Some? ==> r.value.offset.None? && r.value.wall % Minute == 0
  {
    if |s| < 5 || s[4] != '-' || !AllDigits(s[..4]) then None
    else ParseMonthOn(Number(s[..4]), s[5..])
  }

  /** The month ends at the next `-`. */
  function ParseMonthOn(y: int, rest: string): (r: Option<DateTime>)
    ensures r.Some? ==> r.value.offset.None? && r.value.wall % Minute == 0
  {
    var ml := LeadingRun(rest, true);
    if ml == |rest| || rest[ml] != '-' then None
    else match MonthField(rest[..ml])
      case None => None
      case Some(m) => ParseDayOn(y, m, rest[ml + 1..])
  }

  /** The day ends where the whitespace starts, and `%H:%M` takes the rest. */
  function ParseDayOn(y: int, m: int, after: string): (r: Option<DateTime>)
    ensures r.Some? ==> r.value.offset.None? && r.value.wall % Minute == 0
  {
    var dl := DayLength(after);
    var wl := LeadingRun(after[dl..], false);
    StampOf(y, m, DayField(after[..dl]), wl > 0, HourMinute(after[dl + wl..]))
  }

  /** The length of the day field: a space and digits, or digits. */
  function DayLength(after: string): (n: nat)
    ensures n <= |after|
  {
    if after != [] && after[0] == ' ' then 1 + LeadingRun(after[1..], true) else LeadingRun(after, true)
  }

  /** The date-time the fields give, when each was read and the date exists. */
  function StampOf(y: int, m: int, d: Option<nat>, spaced: bool, hm: Option<(int, int)>): (r: Option<DateTime>)
    ensures r.Some? ==> r.value.offset.None? && r.value.wall % Minute == 0
  {
    if d.Some? && spaced && hm.Some? && ValidDate(y, m, d.value)
    then Some(DateTime(MinuteOf(DaysFromCivil(y, m, d.value), hm.value.0, hm.value.1), None))
    else None
  }

  /** The wall reading of minute `h:mi` of day `days`. */
  function MinuteOf(days: int, h: int, mi: int): (w: int)
    ensures w % Minute == 0
  {
    assert days * Day + h * Hour + mi * Minute == (days * 1440 + h * 60 + mi) * Minute;
    days * Day + h * Hour + mi * Minute
  }

  function ParseTime(e: Option<TimeElement>, nowUtc: int): (r: DateTime)
    ensures r.Aware()
  {
    if e.Some? && e.value.title.Some? && ParseStamp(e.value.title.value).Some?
    then DateTime(ParseStamp(e.value.title.value).value.wall, Some(HongKong))
    else DateTime(nowUtc, Some(0))
  }

  /**
   * A parsed title is read as Hong Kong time, eight hours ahead of UTC;
   * anything else is the current instant.
   */
  lemma ParseTimeInstant(e: Option<TimeElement>, nowUtc: int)
    ensures var r := ParseTime(e, nowUtc);
      if e.Some? && e.value.title.Some? && ParseStamp(e.value.title.value).Some?
      then r.Instant() == ParseStamp(e.value.title.value).value.wall - 8 * Hour
      else r.Instant() == nowUtc
  {
  }

  /**
   * The fields are read whatever their padding: a year, a month and a day
   * as `%m` and `%d` accept them, any run of whitespace, and `%H:%M`, give
   * that minute of that date, and a date that does not exist raises.
   */
  lemma ParseStampOf(ys: string, ms: string, ds: string, ws: string, hm: string)
    requires |ys| == 4 && AllDigits(ys) && MonthField(ms).Some? && DayField(ds).Some?
    requires ws != [] && AllSpace(ws) && HourMinute(hm).Some?
    ensures var y, m, d := Number(ys), MonthField(ms).value, DayField(ds).value;
      ParseStamp(ys + "-" + ms + "-" + ds + ws + hm)
        == if ValidDate(y, m, d) then Some(DateTime(MinuteOf(DaysFromCivil(y, m, d), HourMinute(hm).value.0, HourMinute(hm).value.1), None))
           else None
  {
    var s := ys + "-" + ms + "-" + ds + ws + hm;
    assert s[..4] == ys && s[4] == '-';
    assert s[5..] == ms + "-" + (ds + ws + hm);
    ParseMonthOnOf(Number(ys), ms, ds + ws + hm);
    ParseDayOnOf(Number(ys), MonthField(ms).value, ds, ws, hm);
  }

  lemma ParseMonthOnOf(y: int, ms: string, after: string)
    requires MonthField(ms).Some?
    ensures ParseMonthOn(y, ms + "-" + after) == ParseDayOn(y, MonthField(ms).value, after)
  {
    var rest := ms + ("-" + after);
    assert ms + "-" + after == rest;
    LeadingRunOf(ms, "-" + after, true);
    var ml := LeadingRun(rest, true);
    assert ml == |ms|;
    assert rest[ml] == '-';
    assert rest[..ml] == ms;
    assert rest[ml + 1..] == after;
  }

  lemma ParseDayOnOf(y: int, m: int, ds: string, ws: string, hm: string)
    requires DayField(ds).Some? && ws != [] && AllSpace(ws) && HourMinute(hm).Some?
    ensures ParseDayOn(y, m, ds + ws + hm) == StampOf(y, m, DayField(ds), true, HourMinute(hm))
  {
    var after := ds + ws + hm;
    assert after == ds + (ws + hm);
    DayRun(ds, ws + hm);
    var dl := |ds|;
    assert after[..dl] == ds && after[dl..] == ws + hm;
    HourMinuteStartsWithDigit(hm);
    LeadingRunOf(ws, hm, false);
    assert after[dl + |ws|..] == hm;
  }

  /** The day field ends where the whitespace starts. */
  lemma DayRun(ds: string, tail: string)
    requires DayField(ds).Some?
    requires tail != [] && IsSpace(tail[0])
    ensures DayLength(ds + tail) == |ds|
  {
    var after := ds + tail;
    if ds[0] == ' ' {
      assert after[1..] == ds[1..] + tail;
      LeadingRunOf(ds[1..], tail, true);
    } else {
      LeadingRunOf(ds, tail, true);
    }
  }

  lemma HourMinuteStartsWithDigit(hm: string)
    requires HourMinute(hm).Some?
    ensures hm != [] && IsDigit(hm[0]) && !IsSpace(hm[0])
  {
    var k := if |hm| >= 2 && hm[1] == ':' then 1 else 2;
    assert hm[..k][0] == hm[0];
  }

  /** `strptime` does not insist on padding: "2024-5-1 9:05" is "2024-05-01 09:05". */
  lemma ParseStampUnpadded()
    ensures ParseStamp("2024-5-1 9:05") == ParseStamp("2024-05-01 09:05") == Some(DateTime(MinuteOf(DaysFromCivil(2024, 5, 1), 9, 5), None))
  {
    StampUnpadded();
    StampPadded();
  }

  lemma StampUnpadded()
    ensures ParseStamp("2024-5-1 9:05") == Some(DateTime(MinuteOf(DaysFromCivil(2024, 5, 1), 9, 5), None))
  {
    Year2024();
    FieldsUnpadded();
    assert ValidDate(2024, 5, 1);
    assert "2024-5-1 9:05" == "2024" + "-" + "5" + "-" + "1" + " " + "9:05";
    ParseStampOf("2024", "5", "1", " ", "9:05");
  }

  lemma StampPadded()
    ensures ParseStamp("2024-05-01 09:05") == Some(DateTime(MinuteOf(DaysFromCivil(2024, 5, 1), 9, 5), None))
  {
    Year2024();
    FieldsPadded();
    assert ValidDate(2024, 5, 1);
    assert "2024-05-01 09:05" == "2024" + "-" + "05" + "-" + "01" + " " + "09:05";
    ParseStampOf("2024", "05", "01", " ", "09:05");
  }

  lemma Year2024()
    ensures AllDigits("2024") && Number("2024") == 2024
  {
    assert "2024"[..3] == "202" && "202"[..2] == "20";
    assert "20"[..1] == "2" && "2"[..0] == [];
  }

  lemma FieldsUnpadded()
    ensures MonthField("5") == Some(5) && DayField("1") == Some(1) && HourMinute("9:05") == Some((9, 5))
  {
    assert "5"[..0] == [] && "1"[..0] == [];
    assert "9:05"[..1] == "9" && "9:05"[2..] == "05" && "9"[..0] == [];
    assert "05"[..1] == "0" && "0"[..0] == [];
  }

  lemma FieldsPadded()
    ensures MonthField("05") == Some(5) && DayField("01") == Some(1) && HourMinute("09:05") == Some((9, 5))
  {
    assert "05"[..1] == "0" && "01"[..1] == "0" && "09"[..1] == "0" && "0"[..0] == [];
    assert "09:05"[..2] == "09" && "09:05"[3..] == "05";
  }

  /**
   * A title with these fields is that minute in Hong Kong, eight hours
   * ahead of UTC; when the date does not exist `strptime` raises and the
   * current UTC time is used.
   */
  lemma ParseTimeOf(ys: string, ms: string, ds: string, ws: string, hm: string, nowUtc: int)
    requires |ys| == 4 && AllDigits(ys) && MonthField(ms).Some? && DayField(ds).Some?
    requires ws != [] && AllSpace(ws) && HourMinute(hm).Some?
    ensures var y, m, d := Number(ys), MonthField(ms).value, DayField(ds).value;
      var r := ParseTime(Some(TimeElement(Some(ys + "-" + ms + "-" + ds + ws + hm))), nowUtc);
      if ValidDate(y, m, d)
      then r.offset == Some(HongKong) && r.Instant() == MinuteOf(DaysFromCivil(y, m, d), HourMinute(hm).value.0, HourMinute(hm).value.1) - 8 * Hour
      else r == DateTime(nowUtc, Some(0))
  {
    ParseStampOf(ys, ms, ds, ws, hm);
  }

  // ---------------------------------------------------------------------
  // `datetime.strptime(time_str, "%H:%M")` of hknet.py: an hour of one
  // digit, or two digits up to 23, a colon, then a minute of one digit, or
  // two digits up to 59, and nothing else.

  function HourMinute(s: string): (r: Option<(int, int)>)
    ensures r.Some? ==> 0 <= r.value.0 <= 23 && 0 <= r.value.1 <= 59
  {
    var k := if |s| >= 2 && s[1] == ':' then 1 else if |s| >= 3 && s[2] == ':' then 2 else 0;
    if k == 0 || !AllDigits(s[..k]) || !AllDigits(s[k + 1..]) || |s| - k - 1 < 1 || |s| - k - 1 > 2 then None
    else
      var h := Number(s[..k]);
      var m := Number(s[k + 1..]);
      if h <= 23 && m <= 59 then Some((h, m)) else None
  }

  /** Zero-padded `HH:MM` in range is accepted and read as written. */
  lemma HourMinutePadded(h1: char, h2: char, m1: char, m2: char)
    requires IsDigit(h1) && IsDigit(h2) && IsDigit(m1) && IsDigit(m2)
    requires 10 * DigitValue(h1) + DigitValue(h2) <= 23 && 10 * DigitValue(m1) + DigitValue(m2) <= 59
    ensures HourMinute([h1, h2, ':', m1, m2])
         == Some((10 * DigitValue(h1) + DigitValue(h2), 10 * DigitValue(m1) + DigitValue(m2)))
  {
    var s := [h1, h2, ':', m1, m2];
    assert s[..2] == [h1, h2] && s[3..] == [m1, m2];
    NumberOfTwo(h1, h2);
    NumberOfTwo(m1, m2);
  }

  lemma NumberOfTwo(a: char, b: char)
    requires IsDigit(a) && IsDigit(b)
    ensures Number([a, b]) == 10 * DigitValue(a) + DigitValue(b)
  {
    var s := [a, b];
    assert s[..1] == [a] && s[1] == b;
    assert [a][..0] == [] && [a][0] == a;
    assert Number([a]) == DigitValue(a);
  }

  /** `24:00` is refused, as `%H` stops at 23. */
  lemma HourMinuteRefuses24()
    ensures HourMinute("24:00") == None
  {
    var s := "24:00";
    assert s[..2] == "24" && "24"[..1] == "2" && "2"[..0] == [];
  }

  /**
   * `datetime.combine(now.date(), time)` in Hong Kong: the given hour and
   * minute on the Hong Kong calendar day of `nowUtc`.
   */
  function TodayAt(nowUtc: int, h: int, m: int): (r: DateTime)
    requires 0 <= h <= 23 && 0 <= m <= 59
    ensures r.offset == Some(HongKong)
  {
    DateTime((nowUtc + HongKong) / Day * Day + h * Hour + m * Minute, Some(HongKong))
  }

  /** The result lies on the same Hong Kong day as "now", at exactly `h:m`. */
  lemma TodayAtSameDay(nowUtc: int, h: int, m: int)
    requires 0 <= h <= 23 && 0 <= m <= 59
    ensures var r := TodayAt(nowUtc, h, m);
      r.wall / Day == (nowUtc + HongKong) / Day && r.wall % Day == h * Hour + m * Minute
  {
    var day := (nowUtc + HongKong) / Day;
    var r := TodayAt(nowUtc, h, m);
    assert 0 <= h * Hour + m * Minute < Day;
    assert r.wall == day * Day + (h * Hour + m * Minute);
  }

  // ---------------------------------------------------------------------
  // `convert_relative_time` of hkcard.py: `re.match(r'(\d+)\s*' + unit, s)`
  // for each unit in turn; the first that matches gives now - N * unit.

  const Units: seq<(string, int)> := [
    ("秒前", 1),
    ("分鐘前", Minute),
    ("小時前", Hour),
    ("天前", Day),
    ("個月前", 30 * Day),
    ("年前", 365 * Day)
  ]

  /** Length of the run of characters satisfying `p` at the start of `s`. */
  function LeadingRun(s: string, digits: bool): (n: nat)
    ensures n <= |s|
    ensures forall i :: 0 <= i < n ==> (if digits then IsDigit(s[i]) else IsSpace(s[i]))
    ensures n < |s| ==> !(if digits then IsDigit(s[n]) else IsSpace(s[n]))
  {
    if s != [] && (if digits then IsDigit(s[0]) else IsSpace(s[0])) then 1 + LeadingRun(s[1..], digits) else 0
  }

  predicate StartsWith(s: string, p: string)
  {
    |p| <= |s| && s[..|p|] == p
  }

  /** `re.match(r'(\d+)\s*' + unit, s)`, giving `int(group(1))`. */
  function MatchUnit(s: string, unit: string): Option<nat>
  {
    var k := LeadingRun(s, true);
    var j := k + LeadingRun(s[k..], false);
    if k > 0 && StartsWith(s[j..], unit) then Some(Number(s[..k])) else None
  }

  /**
   * What `convert_relative_time` does: no unit matches and it returns None,
   * it returns a naive time, or the subtraction falls before 0001-01-01 and
   * `datetime` raises OverflowError.
   */
  datatype Relative = NoMatch | Ago(time: DateTime) | OutOfRange

  /** `datetime.min`, 0001-01-01 00:00:00, as a wall reading. */
  const MinWall: int := DaysFromCivil(1, 1, 1) * Day

  /** `datetime.max` to the second, 9999-12-31 23:59:59. */
  const MaxWall: int := DaysFromCivil(9999, 12, 31) * Day + Day - 1

  /** `now - timedelta(seconds=span)` for a naive `now`. */
  function Subtract(now: int, span: int): Relative
  {
    if now - span < MinWall then OutOfRange else Ago(DateTime(now - span, None))
  }

  function ConvertFrom(s: string, units: seq<(string, int)>, now: int): Relative
  {
    if units == [] then NoMatch
    else match MatchUnit(s, units[0].0)
      case Some(n) => Subtract(now, n * units[0].1)
      case None => ConvertFrom(s, units[1..], now)
  }

  /** `convert_relative_time(s)` against the naive clock reading `now`. */
  function ConvertRelativeTime(s: string, now: int): Relative
  {
    ConvertFrom(s, Units, now)
  }

  predicate UnitMatchesAt(s: string, k: int)
    requires 0 <= k < |Units|
  {
    MatchUnit(s, Units[k].0).Some?
  }

  /** Trying the units in turn gives None exactly when no unit matches. */
  lemma {:induction false} ConvertFromNone(s: string, units: seq<(string, int)>, now: int)
    ensures ConvertFrom(s, units, now).NoMatch? <==> forall k :: 0 <= k < |units| ==> MatchUnit(s, units[k].0).None?
  {
    if units != [] {
      ConvertFromNone(s, units[1..], now);
      assert forall k :: 0 <= k < |units[1..]| ==> units[1..][k] == units[k + 1];
      if MatchUnit(s, units[0].0).None? {
        if forall k :: 0 <= k < |units[1..]| ==> MatchUnit(s, units[1..][k].0).None? {
          forall k | 0 <= k < |units| ensures MatchUnit(s, units[k].0).None? {
            if k > 0 {
              assert units[k] == units[1..][k - 1];
            }
          }
        }
      }
    }
  }

  /** A result comes from the first unit that matches. */
  lemma {:induction false} ConvertFromSome(s: string, units: seq<(string, int)>, now: int)
    requires !ConvertFrom(s, units, now).NoMatch?
    ensures exists k :: (0 <= k < |units| && MatchUnit(s, units[k].0).Some?
      && (forall j :: 0 <= j < k ==> MatchUnit(s, units[j].0).None?)
      && ConvertFrom(s, units, now) == Subtract(now, MatchUnit(s, units[k].0).value * units[k].1))
  {
    if MatchUnit(s, units[0].0).Some? {
      var k := 0;
      assert MatchUnit(s, units[k].0).Some?;
    } else {
      var rest := units[1..];
      ConvertFromSome(s, rest, now);
      var k :| 0 <= k < |rest| && MatchUnit(s, rest[k].0).Some?
        && (forall j :: 0 <= j < k ==> MatchUnit(s, rest[j].0).None?)
        && ConvertFrom(s, rest, now) == Subtract(now, MatchUnit(s, rest[k].0).value * rest[k].1);
      assert units[k + 1] == rest[k];
      forall j | 0 <= j < k + 1 ensures MatchUnit(s, units[j].0).None? {
        if j > 0 {
          assert units[j] == rest[j - 1];
        }
      }
    }
  }

  /**
   * The units are tried in order and the first that matches decides: the
   * result is now minus N units, or OverflowError when that falls before
   * year 1; a string that matches none yields None.
   */
  lemma RelativeTimeFirstMatch(s: string, now: int)
    ensures ConvertRelativeTime(s, now).NoMatch? <==> forall k :: 0 <= k < |Units| ==> !UnitMatchesAt(s, k)
    ensures !ConvertRelativeTime(s, now).NoMatch? ==>
      exists k :: 0 <= k < |Units| && UnitMatchesAt(s, k) && (forall j :: 0 <= j < k ==> !UnitMatchesAt(s, j))
        && var back := now - MatchUnit(s, Units[k].0).value * Units[k].1;
           ConvertRelativeTime(s, now) == if back < MinWall then OutOfRange else Ago(DateTime(back, None))
  {
    ConvertFromNone(s, Units, now);
    if !ConvertRelativeTime(s, now).NoMatch? {
      ConvertFromSome(s, Units, now);
      var k :| 0 <= k < |Units| && MatchUnit(s, Units[k].0).Some?
        && (forall j :: 0 <= j < k ==> MatchUnit(s, Units[j].0).None?)
        && ConvertFrom(s, Units, now) == Subtract(now, MatchUnit(s, Units[k].0).value * Units[k].1);
      assert UnitMatchesAt(s, k);
    }
  }

  /**
   * A returned relative time is naive, not before year 1 and never after
   * "now", and strictly before it when N > 0.
   */
  lemma RelativeTimeNotAfterNow(s: string, now: int)
    requires ConvertRelativeTime(s, now).Ago?
    ensures MinWall <= ConvertRelativeTime(s, now).time.wall <= now
    ensures ConvertRelativeTime(s, now).time.offset.None?
    ensures Number(s[..LeadingRun(s, true)]) > 0 ==> ConvertRelativeTime(s, now).time.wall < now
  {
    forall k | 0 <= k < |Units| ensures Units[k].1 > 0 {
      UnitPositive(k);
    }
    ConvertFromBefore(s, Units, now);
  }

  lemma {:induction false} ConvertFromBefore(s: string, units: seq<(string, int)>, now: int)
    requires forall k :: 0 <= k < |units| ==> units[k].1 > 0
    requires ConvertFrom(s, units, now).Ago?
    ensures MinWall <= ConvertFrom(s, units, now).time.wall <= now
    ensures ConvertFrom(s, units, now).time.offset.None?
    ensures Number(s[..LeadingRun(s, true)]) > 0 ==> ConvertFrom(s, units, now).time.wall < now
  {
    if MatchUnit(s, units[0].0).Some? {
      var n, w := MatchUnit(s, units[0].0).value, units[0].1;
      assert n == Number(s[..LeadingRun(s, true)]);
      assert n * w >= 0;
      assert n > 0 ==> n * w > 0;
    } else {
      assert forall k :: 0 <= k < |units[1..]| ==> units[1..][k] == units[k + 1];
      ConvertFromBefore(s, units[1..], now);
    }
  }

  lemma UnitPositive(k: int)
    requires 0 <= k < |Units|
    ensures Units[k].1 > 0
  {
  }

  /**
   * After a run of digits and a run of spaces, the pattern for `unit`
   * matches exactly when the rest starts with `unit`, and then reads the
   * digits.
   */
  lemma MatchUnitAfterNumber(d: string, w: string, tail: string, unit: string)
    requires d != [] && AllDigits(d) && AllSpace(w)
    requires tail != [] && !IsDigit(tail[0]) && !IsSpace(tail[0])
    ensures MatchUnit(d + w + tail, unit) == if StartsWith(tail, unit) then Some(Number(d)) else None
  {
    var s := d + w + tail;
    LeadingRunOf(d, w + tail, true);
    assert s == d + (w + tail);
    var k := LeadingRun(s, true);
    assert s[k..] == w + tail;
    LeadingRunOf(w, tail, false);
    assert s[..k] == d;
    assert s[k + |w|..] == tail;
  }

  lemma {:induction false} LeadingRunOf(a: string, b: string, digits: bool)
    requires forall i :: 0 <= i < |a| ==> (if digits then IsDigit(a[i]) else IsSpace(a[i]))
    requires b != [] ==> !(if digits then IsDigit(b[0]) else IsSpace(b[0]))
    ensures LeadingRun(a + b, digits) == |a|
  {
    if a != [] {
      assert (a + b)[0] == a[0];
      assert (a + b)[1..] == a[1..] + b;
      LeadingRunOf(a[1..], b, digits);
    } else {
      assert a + b == b;
    }
  }

  /** "3小時前" is exactly three hours before now, unless that is before year 1. */
  lemma ThreeHoursAgo(now: int)
    ensures MinWall <= now - 3 * Hour ==> ConvertRelativeTime("3小時前", now) == Ago(DateTime(now - 3 * Hour, None))
    ensures now - 3 * Hour < MinWall ==> ConvertRelativeTime("3小時前", now) == OutOfRange
  {
    var s, tail := "3小時前", "小時前";
    assert s == "3" + "" + tail;
    assert Number("3") == 3 by {
      assert "3"[..0] == [];
    }
    MatchUnitAfterNumber("3", "", tail, "秒前");
    assert tail[..2][0] != "秒前"[0];
    MatchUnitAfterNumber("3", "", tail, "分鐘前");
    assert tail[..3][0] != "分鐘前"[0];
    MatchUnitAfterNumber("3", "", tail, "小時前");
    assert tail[..3] == "小時前";
    HoursMatch(s, now);
  }

  /** A string that matches neither seconds nor minutes but hours counts hours. */
  lemma HoursMatch(s: string, now: int)
    requires MatchUnit(s, "秒前").None? && MatchUnit(s, "分鐘前").None? && MatchUnit(s, "小時前").Some?
    ensures ConvertRelativeTime(s, now) == Subtract(now, MatchUnit(s, "小時前").value * Hour)
  {
    assert Units[0].0 == "秒前" && Units[1].0 == "分鐘前";
    assert ConvertFrom(s, Units, now) == ConvertFrom(s, Units[1..], now);
    assert Units[1..][0] == Units[1] && Units[1..][1..] == Units[2..];
    assert ConvertFrom(s, Units[1..], now) == ConvertFrom(s, Units[2..], now);
    assert Units[2..][0] == ("小時前", Hour);
  }

  /** Units that do not match are passed over. */
  lemma {:induction false} ConvertFromSkips(s: string, units: seq<(string, int)>, now: int, k: int)
    requires 0 <= k <= |units|
    requires forall j :: 0 <= j < k ==> MatchUnit(s, units[j].0).None?
    ensures ConvertFrom(s, units, now) == ConvertFrom(s, units[k..], now)
  {
    if k > 0 {
      assert MatchUnit(s, units[0].0).None?;
      assert forall j :: 0 <= j < k - 1 ==> units[1..][j] == units[j + 1];
      ConvertFromSkips(s, units[1..], now, k - 1);
      assert units[1..][k - 1..] == units[k..];
    } else {
      assert units[0..] == units;
    }
  }

  /**
   * Twenty thousand years back is before year 1 from any `datetime`, so
   * the subtraction raises OverflowError.
   */
  lemma FarPastOverflows(now: int)
    requires now <= MaxWall
    ensures ConvertRelativeTime("20000年前", now) == OutOfRange
  {
    FarPastMatches(now);
    WallRange();
  }

  /** "20000年前" reaches back 20000 times the year unit. */
  lemma FarPastMatches(now: int)
    ensures ConvertRelativeTime("20000年前", now) == Subtract(now, 20000 * (365 * Day))
  {
    YearStampMatches();
    ConvertFromSkips("20000年前", Units, now, 5);
    assert Units[5..] == [("年前", 365 * Day)];
  }

  /** "20000年前" matches the year unit with the number 20000, and no unit before it. */
  lemma YearStampMatches()
    ensures MatchUnit("20000年前", "年前") == Some(20000)
    ensures forall j :: 0 <= j < 5 ==> MatchUnit("20000年前", Units[j].0).None?
  {
    var d, tail := "20000", "年前";
    assert "20000年前" == d + "" + tail;
    Number20000();
    OtherUnitsStartElsewhere();
    forall j | 0 <= j < 5
      ensures MatchUnit(d + "" + tail, Units[j].0).None?
    {
      MatchUnitAfterNumber(d, "", tail, Units[j].0);
    }
    MatchUnitAfterNumber(d, "", tail, "年前");
    assert tail[..2] == "年前";
  }

  lemma OtherUnitsStartElsewhere()
    ensures forall j :: 0 <= j < 5 ==> !StartsWith("年前", Units[j].0)
  {
    forall j | 0 <= j < 5
      ensures !StartsWith("年前", Units[j].0)
    {
      assert Units[j].0[0] != '年';
    }
  }

  lemma Number20000()
    ensures AllDigits("20000") && Number("20000") == 20000
  {
    var d := "20000";
    assert d[..4] == "2000" && "2000"[..3] == "200" && "200"[..2] == "20" && "20"[..1] == "2" && "2"[..0] == [];
  }

  /** `datetime` spans less than 20000 years of 365 days. */
  lemma WallRange()
    ensures MaxWall - MinWall < 20000 * (365 * Day)
  {
    assert DaysFromCivil(1, 1, 1) == -719162;
    assert DaysFromCivil(9999, 12, 31) == 2932896;
  }

  // ---------------------------------------------------------------------
  // `HONG_KONG_TZ.localize(exact_time)` when `exact_time.tzinfo is None`.

  function Localize(t: Option<DateTime>): (r: Option<DateTime>)
    ensures r.None? <==> t.None?
    ensures r.Some? ==> r.value.Aware() && r.value.wall == t.value.wall
    ensures t.Some? && t.value.Aware() ==> r == t
    ensures t.Some? && !t.value.Aware() ==> r.value.offset == Some(HongKong)
  {
    if t.Some? && t.value.offset.None? then Some(DateTime(t.value.wall, Some(HongKong))) else t
  }

  /** Localising is done at most once: a second application changes nothing. */
  lemma LocalizeOnce(t: Option<DateTime>)
    ensures Localize(Localize(t)) == Localize(t)
  {
  }

  // ---------------------------------------------------------------------
  // `str(datetime)`: `YYYY-MM-DD HH:MM:SS` and, when aware, `+HH:MM`.

  function Pad(n: nat, width: nat): string
  {
    if width == 0 then "" else Pad(n / 10, width - 1) + [('0' as int + n % 10) as char]
  }

  function ShowOffset(o: int): string
  {
    var a := if o < 0 then -o else o;
    (if o < 0 then "-" else "+") + Pad(a / Hour, 2) + ":" + Pad(a % Hour / Minute, 2)
      + (if a % Minute != 0 then ":" + Pad(a % Minute, 2) else "")
  }

  function Show(t: DateTime): string
  {
    var days := t.wall / Day;
    var secs := t.wall % Day;
    var c := CivilFromDays(days);
    var y := if c.year < 0 then 0 else c.year;
    Pad(y, 4) + "-" + Pad(c.month, 2) + "-" + Pad(c.day, 2) + " "
      + Pad(secs / Hour, 2) + ":" + Pad(secs % Hour / Minute, 2) + ":" + Pad(secs % Minute, 2)
      + (if t.offset.Some? then ShowOffset(t.offset.value) else "")
  }

  /** An f-string of an optional datetime: `None` prints as "None". */
  function ShowOpt(t: Option<DateTime>): string
  {
    if t.None? then "None" else Show(t.value)
  }
}
