/** Calendar dates and instants as the two copies of the application use them.

    The Flask backend reads and writes `YYYY-MM-DD` strings (Python's `strptime` and
    `strftime` with `%Y-%m-%d`, the calendar date in extended format of ISO 8601:2004,
    section 4.1.2.2) and adds seven days with `timedelta`, which fails past Python's
    largest year, 9999. The client stores JavaScript `toISOString()` timestamps
    (`YYYY-MM-DDTHH:mm:ss.sssZ`, with `+YYYYYY` years past 9999), moves them with
    `addDays` and compares them with `isAfter`. Instants are taken in UTC. */
module Dates {
  import opened LibraryTypes
  import opened Text

  /** A day of the proleptic Gregorian calendar. */
  datatype Date = Date(year: int, month: int, day: int)

  predicate IsLeapYear(y: int) {
    y % 4 == 0 && (y % 100 != 0 || y % 400 == 0)
  }

  function DaysInMonth(y: int, m: int): (n: int)
    requires 1 <= m <= 12
    ensures 28 <= n <= 31
    ensures n == 29 <==> m == 2 && IsLeapYear(y)
  {
    if m == 2 then (if IsLeapYear(y) then 29 else 28)
    else if m == 4 || m == 6 || m == 9 || m == 11 then 30
    else 31
  }

  predicate ValidDate(d: Date) {
    1 <= d.year && 1 <= d.month <= 12 && 1 <= d.day <= DaysInMonth(d.year, d.month)
  }

  /** `a` is a strictly earlier day than `b`. */
  predicate DateBefore(a: Date, b: Date) {
    a.year < b.year || (a.year == b.year && (a.month < b.month || (a.month == b.month && a.day < b.day)))
  }

  /** The following day. */
  function NextDay(d: Date): (e: Date)
    requires ValidDate(d)
    ensures ValidDate(e) && DateBefore(d, e)
    ensures e.year == d.year || (e.year == d.year + 1 && e.month == 1 && e.day == 1)
  {
    if d.day < DaysInMonth(d.year, d.month) then d.(day := d.day + 1)
    else if d.month < 12 then Date(d.year, d.month + 1, 1)
    else Date(d.year + 1, 1, 1)
  }

  /** The day `n` days after `d`. */
  function AddDays(d: Date, n: nat): (e: Date)
    requires ValidDate(d)
    ensures ValidDate(e)
    ensures n > 0 ==> DateBefore(d, e)
    decreases n
  {
    if n == 0 then d else AddDays(NextDay(d), n - 1)
  }

  /** Adding days in two steps is adding them at once. */
  lemma {:induction false} AddDaysAdd(d: Date, a: nat, b: nat)
    requires ValidDate(d)
    ensures AddDays(AddDays(d, a), b) == AddDays(d, a + b)
    decreases a
  {
    if a > 0 {
      AddDaysAdd(NextDay(d), a - 1, b);
    }
  }

  /** Within January, adding days adds to the day of the month. */
  lemma {:induction false} AddDaysInJanuary(d: Date, n: nat)
    requires ValidDate(d) && d.month == 1 && d.day + n <= 31
    ensures AddDays(d, n) == Date(d.year, 1, d.day + n)
    decreases n
  {
    if n > 0 {
      AddDaysInJanuary(NextDay(d), n - 1);
    }
  }

  /** Adding at most a month's worth of days crosses at most one new year, and then lands in
      January. */
  lemma {:induction false} ShortAddCrossesOneYear(d: Date, n: nat)
    requires ValidDate(d) && n <= 31
    ensures var e := AddDays(d, n);
      e.year == d.year || (e.year == d.year + 1 && e.month == 1 && e.day <= n)
    decreases n
  {
    if n > 0 {
      var next := NextDay(d);
      if next.year == d.year {
        ShortAddCrossesOneYear(next, n - 1);
      } else {
        AddDaysInJanuary(next, n - 1);
      }
    }
  }

  // ---------------------------------------------------------------------------------------
  // The Flask side: `YYYY-MM-DD` strings and Python's year range.

  /** `datetime.MAXYEAR`. */
  const MaxYear := 9999

  /** `date + timedelta(days=n)`: `None` stands for Python's OverflowError past year 9999. */
  function PyAddDays(d: Date, n: nat): (r: Option<Date>)
    requires ValidDate(d)
    ensures r.Some? ==> ValidDate(r.value) && r.value.year <= MaxYear && r.value == AddDays(d, n)
    ensures r.None? <==> AddDays(d, n).year > MaxYear
  {
    var e := AddDays(d, n);
    if e.year <= MaxYear then Some(e) else None
  }

  /** A week can always be added to a date before Python's last year. */
  lemma PyWeekLaterDefined(d: Date)
    requires ValidDate(d) && d.year < MaxYear
    ensures PyAddDays(d, 7).Some?
  {
    ShortAddCrossesOneYear(d, 7);
  }

  /** The last day from which a week's loan still fits: Christmas Eve of year 9999 gives New
      Year's Eve, Christmas Day would give a day of year 10000. */
  lemma PyWeekLaterLastDay()
    ensures PyAddDays(Date(MaxYear, 12, 24), 7) == Some(Date(MaxYear, 12, 31))
    ensures PyAddDays(Date(MaxYear, 12, 25), 7).None?
  {
  }

  /** Python's `strftime('%Y-%m-%d')`. */
  function FormatDate(d: Date): (s: string)
    requires ValidDate(d) && d.year <= MaxYear
    ensures |s| == 10
  {
    PadNum(d.year, 4) + ("-" + (PadNum(d.month, 2) + ("-" + PadNum(d.day, 2))))
  }

  /** `w` digits at the front of `s`, and what follows them. */
  function ReadField(s: string, w: nat): Option<(nat, string)> {
    if |s| < w then None
    else match ReadDigits(s[..w])
      case Some(v) => Some((v, s[w..]))
      case None => None
  }

  /** The character `c` at the front of `s`, and what follows it. */
  function ReadSep(s: string, c: char): Option<string> {
    if |s| > 0 && s[0] == c then Some(s[1..]) else None
  }

  lemma ReadFieldPad(n: nat, w: nat, rest: string)
    requires n < Pow10(w)
    ensures ReadField(PadNum(n, w) + rest, w) == Some((n, rest))
  {
    var s := PadNum(n, w) + rest;
    assert s[..w] == PadNum(n, w);
    assert s[w..] == rest;
    ReadPadNum(n, w);
  }

  lemma ReadFieldInverse(s: string, w: nat, n: nat, rest: string)
    requires ReadField(s, w) == Some((n, rest))
    ensures n < Pow10(w) && s == PadNum(n, w) + rest
  {
    PadNumRead(s[..w], n);
    assert s == s[..w] + s[w..];
  }

  lemma ReadSepPrefix(c: char, rest: string)
    ensures ReadSep([c] + rest, c) == Some(rest)
  {
    assert ([c] + rest)[1..] == rest;
  }

  /** Python's `strptime(s, '%Y-%m-%d')`: `None` where Python raises ValueError. Only the
      zero-padded form is read. */
  function ParseDate(s: string): (r: Option<Date>)
    ensures r.Some? ==> ValidDate(r.value) && r.value.year <= MaxYear
  {
    match ReadField(s, 4)
    case None => None
    case Some((y, s1)) =>
      match ReadSep(s1, '-')
      case None => None
      case Some(s2) =>
        match ReadField(s2, 2)
        case None => None
        case Some((m, s3)) =>
          match ReadSep(s3, '-')
          case None => None
          case Some(s4) =>
            match ReadField(s4, 2)
            case None => None
            case Some((d, s5)) =>
              if s5 == "" && ValidDate(Date(y, m, d)) && y <= MaxYear then Some(Date(y, m, d)) else None
  }

  /** Formatting then parsing gives the date back. */
  lemma ParseFormatDate(d: Date)
    requires ValidDate(d) && d.year <= MaxYear
    ensures ParseDate(FormatDate(d)) == Some(d)
  {
    var dd := PadNum(d.day, 2);
    var s3 := "-" + dd;
    var s2 := PadNum(d.month, 2) + s3;
    var s1 := "-" + s2;
    assert FormatDate(d) == PadNum(d.year, 4) + s1;
    ReadFieldPad(d.year, 4, s1);
    ReadSepPrefix('-', s2);
    ReadFieldPad(d.month, 2, s3);
    ReadSepPrefix('-', dd);
    ReadFieldPad(d.day, 2, "");
    assert dd + "" == dd;
  }

  /** Parsing then formatting gives the string back: the strings that parse are exactly the
      formatted dates. */
  lemma FormatParseDate(s: string, d: Date)
    requires ParseDate(s) == Some(d)
    ensures FormatDate(d) == s
  {
    var (y, s1) := ReadField(s, 4).value;
    ReadFieldInverse(s, 4, y, s1);
    var s2 := ReadSep(s1, '-').value;
    assert s1 == "-" + s2;
    var (m, s3) := ReadField(s2, 2).value;
    ReadFieldInverse(s2, 2, m, s3);
    var s4 := ReadSep(s3, '-').value;
    assert s3 == "-" + s4;
    var (dd, s5) := ReadField(s4, 2).value;
    ReadFieldInverse(s4, 2, dd, s5);
    assert s4 == PadNum(dd, 2);
  }

  // ---------------------------------------------------------------------------------------
  // The client side: JavaScript instants and their ISO strings.

  /** A JavaScript `Date`, read in UTC. */
  datatype Moment = Moment(date: Date, hour: int, minute: int, second: int, milli: int)

  predicate ValidMoment(m: Moment) {
    ValidDate(m.date) && 0 <= m.hour < 24 && 0 <= m.minute < 60 && 0 <= m.second < 60 && 0 <= m.milli < 1000
  }

  /** `isAfter(a, b)`: `a` is strictly later than `b`. */
  predicate After(a: Moment, b: Moment) {
    DateBefore(b.date, a.date) ||
    (a.date == b.date &&
      (b.hour < a.hour || (b.hour == a.hour &&
        (b.minute < a.minute || (b.minute == a.minute &&
          (b.second < a.second || (b.second == a.second && b.milli < a.milli)))))))
  }

  /** No instant is after itself. */
  lemma AfterIrreflexive(m: Moment)
    ensures !After(m, m)
  {
  }

  /** `addDays(m, n)`: the same time of day, `n` calendar days later. */
  function AddDaysMoment(m: Moment, n: nat): (r: Moment)
    requires ValidMoment(m)
    ensures ValidMoment(r)
    ensures n > 0 ==> After(r, m)
  {
    m.(date := AddDays(m.date, n))
  }

  /** The year field of `toISOString`: four digits, or a sign and six digits past 9999. */
  function IsoYear(y: nat): (s: string)
    ensures |s| == 4 || (|s| == 7 && s[0] == '+')
    ensures |s| == 4 <==> y <= 9999
  {
    if y <= 9999 then PadNum(y, 4) else "+" + PadNum(y, 6)
  }

  /** `toISOString()`. */
  function FormatIso(m: Moment): string
    requires ValidMoment(m)
  {
    IsoYear(m.date.year) + IsoRest(m)
  }

  /** Everything `toISOString()` writes after the year: `-MM-DDTHH:mm:ss.sssZ`. */
  function IsoRest(m: Moment): (s: string)
    requires ValidMoment(m)
    ensures |s| == 20
  {
    "-" + (PadNum(m.date.month, 2) + ("-" + (PadNum(m.date.day, 2) +
    ("T" + (PadNum(m.hour, 2) + (":" + (PadNum(m.minute, 2) + (":" + (PadNum(m.second, 2) +
    ("." + (PadNum(m.milli, 3) + "Z")))))))))))
  }

  /** The part of an ISO timestamp after the year. */
  function ParseIsoRest(y: nat, s: string): (r: Option<Moment>)
    ensures r.Some? ==> ValidMoment(r.value) && r.value.date.year == y
  {
    match ReadSep(s, '-')
    case None => None
    case Some(s1) =>
      match ReadField(s1, 2)
      case None => None
      case Some((mo, s2)) =>
        match ReadSep(s2, '-')
        case None => None
        case Some(s3) =>
          match ReadField(s3, 2)
          case None => None
          case Some((d, s4)) =>
            match ReadSep(s4, 'T')
            case None => None
            case Some(s5) =>
              match ReadField(s5, 2)
              case None => None
              case Some((h, s6)) =>
                match ReadSep(s6, ':')
                case None => None
                case Some(s7) =>
                  match ReadField(s7, 2)
                  case None => None
                  case Some((mi, s8)) =>
                    match ReadSep(s8, ':')
                    case None => None
                    case Some(s9) =>
                      match ReadField(s9, 2)
                      case None => None
                      case Some((sec, s10)) =>
                        match ReadSep(s10, '.')
                        case None => None
                        case Some(s11) =>
                          match ReadField(s11, 3)
                          case None => None
                          case Some((ms, s12)) =>
                            var m := Moment(Date(y, mo, d), h, mi, sec, ms);
                            if s12 == "Z" && ValidMoment(m) then Some(m) else None
  }

  /** `parseISO` on the strings `toISOString` writes; `None` stands for an Invalid Date. */
  function ParseIso(s: string): (r: Option<Moment>)
    ensures r.Some? ==> ValidMoment(r.value)
  {
    if |s| > 0 && s[0] == '+' then
      match ReadField(s[1..], 6)
      case None => None
      case Some((y, rest)) => ParseIsoRest(y, rest)
    else
      match ReadField(s, 4)
      case None => None
      case Some((y, rest)) => ParseIsoRest(y, rest)
  }

  lemma ParseIsoRestFormat(m: Moment)
    requires ValidMoment(m)
    ensures ParseIsoRest(m.date.year, IsoRest(m)) == Some(m)
  {
    var t12 := "Z";
    var t11 := PadNum(m.milli, 3) + t12;
    var t10 := "." + t11;
    var t9 := PadNum(m.second, 2) + t10;
    var t8 := ":" + t9;
    var t7 := PadNum(m.minute, 2) + t8;
    var t6 := ":" + t7;
    var t5 := PadNum(m.hour, 2) + t6;
    var t4 := "T" + t5;
    var t3 := PadNum(m.date.day, 2) + t4;
    var t2 := "-" + t3;
    var t1 := PadNum(m.date.month, 2) + t2;
    assert IsoRest(m) == "-" + t1;
    ReadSepPrefix('-', t1);
    ReadFieldPad(m.date.month, 2, t2);
    ReadSepPrefix('-', t3);
    ReadFieldPad(m.date.day, 2, t4);
    ReadSepPrefix('T', t5);
    ReadFieldPad(m.hour, 2, t6);
    ReadSepPrefix(':', t7);
    ReadFieldPad(m.minute, 2, t8);
    ReadSepPrefix(':', t9);
    ReadFieldPad(m.second, 2, t10);
    ReadSepPrefix('.', t11);
    ReadFieldPad(m.milli, 3, t12);
  }

  /** Reading the year field of an ISO timestamp leaves the rest of the string to
      `ParseIsoRest`, for every year up to 999999. */
  lemma ParseIsoYear(y: nat, rest: string)
    requires y <= 999999
    ensures ParseIso(IsoYear(y) + rest) == ParseIsoRest(y, rest)
  {
    var s := IsoYear(y) + rest;
    if y <= 9999 {
      assert Pow10(4) == 10000;
      assert s[0] == PadNum(y, 4)[0];
      ReadFieldPad(y, 4, rest);
    } else {
      assert Pow10(6) == 1000000;
      assert s[1..] == PadNum(y, 6) + rest;
      ReadFieldPad(y, 6, rest);
    }
  }

  /** Formatting an instant then parsing it gives the instant back, for every year up to
      999999 (JavaScript's own range ends in year 275760). */
  lemma ParseFormatIso(m: Moment)
    requires ValidMoment(m) && m.date.year <= 999999
    ensures ParseIso(FormatIso(m)) == Some(m)
  {
    ParseIsoYear(m.date.year, IsoRest(m));
    ParseIsoRestFormat(m);
  }

}
