/**
  Dates and wall-clock times as the pipeline reads and writes them with
  Python's `datetime.strptime` / `strftime`:

  - `%I:%M%p`   the schedule's 12-hour start time (`9:00AM`),
  - `%H:%M`     the 24-hour time stored in the ledger (`09:00`),
  - `%I:%M %p`  the 12-hour time shown to recipients (`09:00 AM`),
  - `%Y-%m-%d`  the calendar date of a day button and of a ledger row,

  and the comparison of instants (`datetime` ordering). A numeric strptime
  field (`%I`, `%M`, `%H`, `%m`, `%d`) matches one or two digits whose value
  lies in the directive's range; because each field is followed by a
  non-digit (or the end of the text), the field is the run of digits before
  that delimiter. `%I` and `%d` also match a space followed by one digit 1-9
  (the ` [1-9]` alternative of their patterns).
 */
module Times {
  import opened Options
  import opened Text

  /** A 24-hour wall-clock time. */
  datatype Clock = Clock(hour: nat, minute: nat)

  /** A 12-hour wall-clock time as printed on the schedule. */
  datatype Clock12 = Clock12(hour: nat, minute: nat, pm: bool)

  datatype Date = Date(year: nat, month: nat, day: nat)

  /** A naive `datetime`. */
  datatype DateTime = DateTime(date: Date, clock: Clock, second: nat, microsecond: nat)

  predicate ValidClock(c: Clock)
  {
    c.hour < 24 && c.minute < 60
  }

  predicate ValidClock12(c: Clock12)
  {
    1 <= c.hour <= 12 && c.minute < 60
  }

  predicate IsLeapYear(y: nat)
  {
    y % 4 == 0 && (y % 100 != 0 || y % 400 == 0)
  }

  function DaysInMonth(y: nat, m: nat): nat
    requires 1 <= m <= 12
  {
    if m == 2 then (if IsLeapYear(y) then 29 else 28)
    else if m == 4 || m == 6 || m == 9 || m == 11 then 30
    else 31
  }

  /** The dates `datetime.date` accepts (years 1 to 9999). */
  predicate ValidDate(d: Date)
  {
    1 <= d.year <= 9999 && 1 <= d.month <= 12 && 1 <= d.day <= DaysInMonth(d.year, d.month)
  }

  predicate ValidDateTime(t: DateTime)
  {
    ValidDate(t.date) && ValidClock(t.clock) && t.second < 60 && t.microsecond < 1000000
  }

  /** The instant at which a class starts: its date and start time, on the minute. */
  function ClassInstant(d: Date, c: Clock): DateTime
  {
    DateTime(d, c, 0, 0)
  }

  /** The chronological order of `datetime` values: `a < b`. */
  predicate Before(a: DateTime, b: DateTime)
  {
    if a.date.year != b.date.year then a.date.year < b.date.year
    else if a.date.month != b.date.month then a.date.month < b.date.month
    else if a.date.day != b.date.day then a.date.day < b.date.day
    else if a.clock.hour != b.clock.hour then a.clock.hour < b.clock.hour
    else if a.clock.minute != b.clock.minute then a.clock.minute < b.clock.minute
    else if a.second != b.second then a.second < b.second
    else a.microsecond < b.microsecond
  }

  // ---------------------------------------------------------------- reading

  /** One strptime numeric field: one or two ASCII digits whose value lies in `lo..hi`. */
  function Field(s: string, lo: nat, hi: nat): (r: Option<nat>)
    ensures r.Some? ==> lo <= r.value <= hi
    ensures r.Some? <==> 1 <= |s| <= 2 && AllDigits(s) && lo <= ValueOf(s) <= hi
  {
    if 1 <= |s| <= 2 && AllDigits(s) && lo <= ValueOf(s) <= hi then Some(ValueOf(s)) else None
  }

  /** `%p` in the C locale, matched case-insensitively: `Some(true)` for PM. */
  function Meridiem(s: string): Option<bool>
  {
    if |s| == 2 && (s[1] == 'm' || s[1] == 'M') then
      if s[0] == 'a' || s[0] == 'A' then Some(false)
      else if s[0] == 'p' || s[0] == 'P' then Some(true)
      else None
    else None
  }

  /** `strptime(s, "%I:%M%p")`, before the hour is moved to 24-hour form; `None` where Python raises. */
  function ReadClock12(s: string): (r: Option<Clock12>)
    ensures r.Some? ==> ValidClock12(r.value)
  {
    if |s| >= 2 && s[0] == ' ' && '1' <= s[1] <= '9' then ReadAfterHour(DigitValue(s[1]), s[2..])
    else
      var k := DigitPrefixLen(s);
      var h := Field(s[..k], 1, 12);
      if h.None? then None else ReadAfterHour(h.value, s[k..])
  }

  /** The rest of `%I:%M%p` once the hour `h` is read: `:`, the minute, then the meridiem. */
  function ReadAfterHour(h: nat, t: string): (r: Option<Clock12>)
    requires 1 <= h <= 12
    ensures r.Some? ==> ValidClock12(r.value) && r.value.hour == h
  {
    if |t| == 0 || t[0] != ':' then None
    else
      var rest := t[1..];
      var j := DigitPrefixLen(rest);
      var m := Field(rest[..j], 0, 59);
      var p := Meridiem(rest[j..]);
      if m.None? || p.None? then None else Some(Clock12(h, m.value, p.value))
  }

  /** `strptime(s, "%H:%M")`; `None` where Python raises. */
  function ReadClock24(s: string): (r: Option<Clock>)
    ensures r.Some? ==> ValidClock(r.value)
  {
    var k := DigitPrefixLen(s);
    var h := Field(s[..k], 0, 23);
    if h.None? || k == |s| || s[k] != ':' then None
    else
      var m := Field(s[k + 1..], 0, 59);
      if m.None? then None else Some(Clock(h.value, m.value))
  }

  /** The day field `%d`: one or two digits in 1..31, or a space and one digit; with the text after it. */
  function ReadDay(t: string): (r: (Option<nat>, string))
    ensures r.0.Some? ==> 1 <= r.0.value <= 31
  {
    if |t| >= 2 && t[0] == ' ' && '1' <= t[1] <= '9' then (Some(DigitValue(t[1])), t[2..])
    else
      var j := DigitPrefixLen(t);
      (Field(t[..j], 1, 31), t[j..])
  }

  /**
    The date part of `strptime(date + " " + hhmm, "%Y-%m-%d %H:%M")`: four digits, `-`, a month,
    `-`, a day, then only whitespace (the format's space matches a whitespace run, so trailing
    whitespace of the date is absorbed); the date must exist in the calendar.
   */
  function ReadDate(s: string): (r: Option<Date>)
    ensures r.Some? ==> ValidDate(r.value)
  {
    if |s| < 5 || !AllDigits(s[..4]) || s[4] != '-' then None
    else
      var year := ValueOf(s[..4]);
      ValueOfBound(s[..4]);
      var rest := s[5..];
      var k := DigitPrefixLen(rest);
      var month := Field(rest[..k], 1, 12);
      if month.None? || k == |rest| || rest[k] != '-' then None
      else
        var (day, after) := ReadDay(rest[k + 1..]);
        if day.None? || !IsBlank(after) || year < 1 || day.value > DaysInMonth(year, month.value) then None
        else Some(Date(year, month.value, day.value))
  }

  // ---------------------------------------------------------------- writing

  /** `%H:%M`. */
  function Format24(c: Clock): string
  {
    Pad(c.hour, 2) + ":" + Pad(c.minute, 2)
  }

  /** `%Y-%m-%d`. */
  function FormatDate(d: Date): string
  {
    Pad(d.year, 4) + "-" + Pad(d.month, 2) + "-" + Pad(d.day, 2)
  }

  /** `date + " " + time` as the ledger's cleanup query builds it. */
  function Stamp(date: string, time: string): string
  {
    date + " " + time
  }

  /** `now.strftime("%Y-%m-%d %H:%M")`: seconds and microseconds are dropped. */
  function FormatMinute(t: DateTime): string
  {
    Stamp(FormatDate(t.date), Format24(t.clock))
  }

  /** The hour as `%I` shows it. */
  function Hour12(h: nat): nat
  {
    if h % 12 == 0 then 12 else h % 12
  }

  /** A 24-hour time as the 12-hour reading strftime prints. */
  function From24(c: Clock): (r: Clock12)
    requires ValidClock(c)
    ensures ValidClock12(r)
  {
    Clock12(Hour12(c.hour), c.minute, c.hour >= 12)
  }

  /**
    The hour rule strptime applies to `%I` with `%p`: 12 AM is hour 0, 12 PM stays 12,
    other PM hours gain 12. It is the inverse of `From24`.
   */
  function To24(c: Clock12): (r: Clock)
    requires ValidClock12(c)
    ensures ValidClock(r)
    ensures From24(r) == c
  {
    var h := if c.hour == 12 then (if c.pm then 12 else 0) else (if c.pm then c.hour + 12 else c.hour);
    Clock(h, c.minute)
  }

  /** `%I:%M %p`. */
  function Format12(c: Clock): (r: string)
    requires ValidClock(c)
    ensures |r| == 8 && r[2] == ':' && r[5] == ' ' && r[7] == 'M'
  {
    var t := From24(c);
    Pad(t.hour, 2) + ":" + Pad(t.minute, 2) + " " + (if t.pm then "PM" else "AM")
  }

  /** `datetime.strptime(t, "%H:%M").strftime("%I:%M %p")`; `None` where Python raises. */
  function Reformat12(t: string): (r: Option<string>)
    ensures r.Some? <==> ReadClock24(t).Some?
    ensures r.Some? ==> |r.value| == 8
  {
    var c := ReadClock24(t);
    if c.None? then None else Some(Format12(c.value))
  }

  /** The schedule's own spelling of a 12-hour time, as in `9:05AM` or `12:30PM`. */
  function Show12(c: Clock12): string
    requires ValidClock12(c)
  {
    Pad(c.hour, if c.hour < 10 then 1 else 2) + ":" + Pad(c.minute, 2) + (if c.pm then "PM" else "AM")
  }

  // ---------------------------------------------------------------- round trips

  /** The schedule's spelling of a time has no `-`. */
  lemma Show12HasNoDash(c: Clock12)
    requires ValidClock12(c)
    ensures '-' !in Show12(c)
  {
    var w := if c.hour < 10 then 1 else 2;
    var h, m := Pad(c.hour, w), Pad(c.minute, 2);
    var ap := if c.pm then "PM" else "AM";
    assert Show12(c) == h + ":" + m + ap;
    assert '-' !in h && '-' !in m;
  }

  lemma FieldOfPad(n: nat, w: nat, lo: nat, hi: nat)
    requires 1 <= w <= 2 && n < Pow10(w) && lo <= n <= hi
    ensures Field(Pad(n, w), lo, hi) == Some(n)
  {
    PadValue(n, w);
  }

  lemma DigitPrefixOfPad(n: nat, w: nat, rest: string)
    requires |rest| > 0 && !IsDigit(rest[0])
    ensures DigitPrefixLen(Pad(n, w) + rest) == w
    ensures (Pad(n, w) + rest)[..w] == Pad(n, w)
    ensures (Pad(n, w) + rest)[w..] == rest
  {
    var s := Pad(n, w) + rest;
    assert s[..w] == Pad(n, w);
  }

  /** A zero-padded field followed by a non-digit is read back as its number, leaving the rest. */
  lemma FieldsOfPad(n: nat, w: nat, lo: nat, hi: nat, rest: string)
    requires 1 <= w <= 2 && n < Pow10(w) && lo <= n <= hi
    requires |rest| > 0 && !IsDigit(rest[0])
    ensures var s := Pad(n, w) + rest;
      DigitPrefixLen(s) == w && Field(s[..w], lo, hi) == Some(n) && s[w..] == rest
  {
    DigitPrefixOfPad(n, w, rest);
    FieldOfPad(n, w, lo, hi);
  }

  /** Reading back a time printed by `%H:%M` gives the same time. */
  lemma {:induction false} ReadFormat24(c: Clock)
    requires ValidClock(c)
    ensures ReadClock24(Format24(c)) == Some(c)
  {
    var s := Format24(c);
    assert s == Pad(c.hour, 2) + (":" + Pad(c.minute, 2));
    DigitPrefixOfPad(c.hour, 2, ":" + Pad(c.minute, 2));
    FieldOfPad(c.hour, 2, 0, 23);
    assert s[3..] == Pad(c.minute, 2);
    FieldOfPad(c.minute, 2, 0, 59);
  }

  /** The schedule's 12-hour spelling is read back by `%I:%M%p` exactly. */
  lemma {:induction false} ReadShow12(c: Clock12)
    requires ValidClock12(c)
    ensures ReadClock12(Show12(c)) == Some(c)
  {
    var w := if c.hour < 10 then 1 else 2;
    var ap := if c.pm then "PM" else "AM";
    var s := Show12(c);
    var rest := Pad(c.minute, 2) + ap;
    assert s == Pad(c.hour, w) + (":" + rest);
    FieldsOfPad(c.hour, w, 1, 12, ":" + rest);
    FieldsOfPad(c.minute, 2, 0, 59, ap);
    ReadClock12Of(s, w, rest, 2);
  }

  /** `%I:%M%p` of a text whose fields have been read one by one. */
  lemma ReadClock12Of(s: string, k: nat, rest: string, j: nat)
    requires DigitPrefixLen(s) == k && k < |s| && s[k] == ':' && Field(s[..k], 1, 12).Some?
    requires rest == s[k + 1..] && DigitPrefixLen(rest) == j
    requires Field(rest[..j], 0, 59).Some? && Meridiem(rest[j..]).Some?
    ensures ReadClock12(s) == Some(Clock12(Field(s[..k], 1, 12).value, Field(rest[..j], 0, 59).value, Meridiem(rest[j..]).value))
  {
    assert IsDigit(s[..k][0]);
    assert s[k..][1..] == rest;
  }

  /**
    `%I` also matches a space and one digit, so a one-digit hour printed with a leading
    space is read back as the same time.
   */
  lemma {:induction false} ReadSpacedShow12(c: Clock12)
    requires ValidClock12(c) && c.hour < 10
    ensures ReadClock12(" " + Show12(c)) == Some(c)
  {
    var ap := if c.pm then "PM" else "AM";
    var rest := Pad(c.minute, 2) + ap;
    var s := " " + Show12(c);
    assert s == " " + Pad(c.hour, 1) + (":" + rest);
    assert s[1] == Pad(c.hour, 1)[0];
    PadValue(c.hour, 1);
    assert DigitValue(s[1]) == c.hour by {
      assert Pad(c.hour, 1)[..0] == "";
    }
    assert s[2..] == ":" + rest;
    FieldsOfPad(c.minute, 2, 0, 59, ap);
    assert (":" + rest)[1..] == rest;
  }

  /** Reading back a date printed by `%Y-%m-%d` gives the same date. */
  lemma {:induction false} ReadFormatDate(d: Date)
    requires ValidDate(d)
    ensures ReadDate(FormatDate(d)) == Some(d)
  {
    var s := FormatDate(d);
    var t := Pad(d.day, 2);
    var rest := Pad(d.month, 2) + ("-" + t);
    assert s == Pad(d.year, 4) + ("-" + rest);
    assert s[..4] == Pad(d.year, 4) && s[4] == '-' && s[5..] == rest;
    PadValue(d.year, 4);
    FieldsOfPad(d.month, 2, 1, 12, "-" + t);
    assert rest[3..] == t;
    ReadDayOfPad(d.day);
    ReadDateOf(s, rest, 2);
  }

  /** A zero-padded day field alone is read back whole. */
  lemma ReadDayOfPad(n: nat)
    requires 1 <= n <= 31
    ensures ReadDay(Pad(n, 2)) == (Some(n), "")
  {
    var t := Pad(n, 2);
    assert t[0] != ' ';
    assert t[..2] == t && t[2..] == "";
    FieldOfPad(n, 2, 1, 31);
  }

  /**
    The date read absorbs whitespace after the day: a printed date followed by blanks reads
    back as the same date.
   */
  lemma {:induction false} ReadBlankTailDate(d: Date, t: string)
    requires ValidDate(d) && IsBlank(t)
    ensures ReadDate(FormatDate(d) + t) == Some(d)
  {
    if |t| == 0 {
      assert FormatDate(d) + t == FormatDate(d);
      ReadFormatDate(d);
    } else {
      var s := FormatDate(d) + t;
      var day := Pad(d.day, 2) + t;
      var rest := Pad(d.month, 2) + ("-" + day);
      assert s == Pad(d.year, 4) + ("-" + rest);
      assert s[..4] == Pad(d.year, 4) && s[4] == '-' && s[5..] == rest;
      PadValue(d.year, 4);
      FieldsOfPad(d.month, 2, 1, 12, "-" + day);
      assert rest[3..] == day;
      ReadDayOfPadBlank(d.day, t);
      ReadDateOf(s, rest, 2);
    }
  }

  /** A zero-padded day field followed by blanks: the blanks are left over. */
  lemma ReadDayOfPadBlank(n: nat, t: string)
    requires 1 <= n <= 31 && IsBlank(t) && |t| > 0
    ensures ReadDay(Pad(n, 2) + t) == (Some(n), t)
  {
    assert !IsDigit(t[0]);
    FieldsOfPad(n, 2, 1, 31, t);
  }

  /** `%Y-%m-%d` of a text whose fields have been read one by one. */
  lemma ReadDateOf(s: string, rest: string, k: nat)
    requires |s| >= 5 && AllDigits(s[..4]) && s[4] == '-' && rest == s[5..]
    requires DigitPrefixLen(rest) == k && Field(rest[..k], 1, 12).Some? && k < |rest| && rest[k] == '-'
    requires ReadDay(rest[k + 1..]).0.Some? && IsBlank(ReadDay(rest[k + 1..]).1)
    requires 1 <= ValueOf(s[..4])
    requires ReadDay(rest[k + 1..]).0.value <= DaysInMonth(ValueOf(s[..4]), Field(rest[..k], 1, 12).value)
    ensures ReadDate(s) == Some(Date(ValueOf(s[..4]), Field(rest[..k], 1, 12).value, ReadDay(rest[k + 1..]).0.value))
  {
  }

  /** `To24` and `From24` are mutually inverse on valid times. */
  lemma To24From24(c: Clock)
    requires ValidClock(c)
    ensures To24(From24(c)) == c
  {
  }

  /**
    A start time read from the schedule, stored as `%H:%M` and shown again with
    `%I:%M %p`, is the same wall-clock time: the same hour (zero-padded), minute and half of the day.
   */
  lemma RoundTrip12(s: string)
    requires ReadClock12(s).Some?
    ensures var c := ReadClock12(s).value;
      Reformat12(Format24(To24(c))) == Some(Pad(c.hour, 2) + ":" + Pad(c.minute, 2) + " " + (if c.pm then "PM" else "AM"))
  {
    ReadFormat24(To24(ReadClock12(s).value));
  }

  /** How `%I:%M %p` shows each 24-hour hour: 00 is 12 AM, 12 is 12 PM, 13 to 23 lose 12 and are PM. */
  lemma TwelveHourCases(c: Clock)
    requires ValidClock(c)
    ensures c.hour == 0 ==> Format12(c) == "12:" + Pad(c.minute, 2) + " AM"
    ensures 1 <= c.hour < 12 ==> Format12(c) == Pad(c.hour, 2) + ":" + Pad(c.minute, 2) + " AM"
    ensures c.hour == 12 ==> Format12(c) == "12:" + Pad(c.minute, 2) + " PM"
    ensures 12 < c.hour ==> Format12(c) == Pad(c.hour - 12, 2) + ":" + Pad(c.minute, 2) + " PM"
  {
    if c.hour == 0 || c.hour == 12 {
      Format12Is(c, 12);
      assert Pad(12, 2) + ":" == "12:";
    } else if c.hour < 12 {
      Format12Is(c, c.hour);
    } else {
      Format12Is(c, c.hour - 12);
    }
  }

  lemma Format12Is(c: Clock, h: nat)
    requires ValidClock(c) && From24(c).hour == h
    ensures Format12(c) == Pad(h, 2) + ":" + Pad(c.minute, 2) + " " + (if c.hour >= 12 then "PM" else "AM")
  {
  }

  // ---------------------------------------------------------------- text order is time order

  /** An instant strictly after `now` is not before the start of `now`'s minute. */
  lemma AfterNowNotBeforeMinute(now: DateTime, d: Date, c: Clock)
    requires Before(now, ClassInstant(d, c))
    ensures !Before(ClassInstant(d, c), ClassInstant(now.date, now.clock))
  {
  }

  /** Comparing texts that start with a zero-padded field: the field's number decides first. */
  lemma PadFieldOrder(n1: nat, n2: nat, w: nat, u: string, v: string)
    requires n1 < Pow10(w) && n2 < Pow10(w)
    ensures LexLess(Pad(n1, w) + u, Pad(n2, w) + v) <==> n1 < n2 || (n1 == n2 && LexLess(u, v))
  {
    LexLessConcat(Pad(n1, w), Pad(n2, w), u, v);
    PadLexOrder(n1, n2, w);
    PadValue(n1, w);
    PadValue(n2, w);
  }

  /** A common separator does not affect the comparison. */
  lemma SeparatorOrder(sep: string, u: string, v: string)
    ensures LexLess(sep + u, sep + v) <==> LexLess(u, v)
  {
    LexLessConcat(sep, sep, u, v);
  }

  /**
    For the zero-padded `YYYY-MM-DD HH:MM` texts the ledger stores and compares, text order is
    chronological order of the minutes they name.
   */
  lemma StampOrder(d1: Date, c1: Clock, d2: Date, c2: Clock)
    requires ValidDate(d1) && ValidClock(c1) && ValidDate(d2) && ValidClock(c2)
    ensures LexLess(Stamp(FormatDate(d1), Format24(c1)), Stamp(FormatDate(d2), Format24(c2)))
        <==> Before(ClassInstant(d1, c1), ClassInstant(d2, c2))
  {
    var t1, t2 := " " + Format24(c1), " " + Format24(c2);
    assert Stamp(FormatDate(d1), Format24(c1)) == FormatDate(d1) + t1;
    assert Stamp(FormatDate(d2), Format24(c2)) == FormatDate(d2) + t2;
    DateTextOrder(d1, d2, t1, t2);
    SeparatorOrder(" ", Format24(c1), Format24(c2));
    ClockTextOrder(c1, c2);
  }

  /** `%H:%M` texts compare as the times they name. */
  lemma ClockTextOrder(c1: Clock, c2: Clock)
    requires ValidClock(c1) && ValidClock(c2)
    ensures LexLess(Format24(c1), Format24(c2)) <==> c1.hour < c2.hour || (c1.hour == c2.hour && c1.minute < c2.minute)
  {
    var m1, m2 := Pad(c1.minute, 2), Pad(c2.minute, 2);
    assert Format24(c1) == Pad(c1.hour, 2) + (":" + m1);
    assert Format24(c2) == Pad(c2.hour, 2) + (":" + m2);
    PadFieldOrder(c1.minute, c2.minute, 2, "", "");
    assert m1 + "" == m1 && m2 + "" == m2;
    LexLessIrreflexive("");
    SeparatorOrder(":", m1, m2);
    PadFieldOrder(c1.hour, c2.hour, 2, ":" + m1, ":" + m2);
  }

  /** `%Y-%m-%d` texts followed by anything compare by the dates first, then by what follows. */
  lemma DateTextOrder(d1: Date, d2: Date, u: string, v: string)
    requires ValidDate(d1) && ValidDate(d2)
    ensures LexLess(FormatDate(d1) + u, FormatDate(d2) + v) <==>
      if d1.year != d2.year then d1.year < d2.year
      else if d1.month != d2.month then d1.month < d2.month
      else if d1.day != d2.day then d1.day < d2.day
      else LexLess(u, v)
  {
    var day1, day2 := Pad(d1.day, 2) + u, Pad(d2.day, 2) + v;
    var mon1, mon2 := Pad(d1.month, 2) + ("-" + day1), Pad(d2.month, 2) + ("-" + day2);
    assert FormatDate(d1) + u == Pad(d1.year, 4) + ("-" + mon1);
    assert FormatDate(d2) + v == Pad(d2.year, 4) + ("-" + mon2);
    PadFieldOrder(d1.day, d2.day, 2, u, v);
    SeparatorOrder("-", day1, day2);
    PadFieldOrder(d1.month, d2.month, 2, "-" + day1, "-" + day2);
    SeparatorOrder("-", mon1, mon2);
    PadFieldOrder(d1.year, d2.year, 4, "-" + mon1, "-" + mon2);
  }
}
