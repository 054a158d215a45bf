/** Certificate times as seconds since 1970 (x509.rs; section 4.1.2.5 of RFC 5280). */
module Calendar {
  import opened Options
  import opened Words
  import opened Bytes

  /** Days from 1970-01-01 to a civil date of the Gregorian calendar. */
  function DaysFromCivil(y: int, month: int, day: int): int
  {
    var year := if month <= 2 then y - 1 else y;
    var era := year / 400;
    var yearOfEra := year - era * 400;
    var dayOfYear := (153 * ((month + 9) % 12) + 2) / 5 + day - 1;
    var dayOfEra := yearOfEra * 365 + yearOfEra / 4 - yearOfEra / 100 + dayOfYear;
    era * 146_097 + dayOfEra - 719_468
  }

  // ---- the calendar itself -----------------------------------------------------------------

  predicate LeapYear(y: int)
  {
    y % 4 == 0 && (y % 100 != 0 || y % 400 == 0)
  }

  function MonthLength(y: int, month: int): int
  {
    if month == 2 then (if LeapYear(y) then 29 else 28)
    else if month in {4, 6, 9, 11} then 30
    else 31
  }

  predicate CivilDate(y: int, month: int, day: int)
  {
    1 <= month <= 12 && 1 <= day <= MonthLength(y, month)
  }

  /** The day after a date. */
  function NextDay(y: int, month: int, day: int): (int, int, int)
  {
    if day < MonthLength(y, month) then (y, month, day + 1)
    else if month < 12 then (y, month + 1, 1)
    else (y + 1, 1, 1)
  }

  /** The days before the year that starts on the first of March of year y. */
  function YearStart(y: int): int
  {
    var era := y / 400;
    var k := y - era * 400;
    era * 146_097 + (k * 365 + k / 4 - k / 100)
  }

  /** A year from March on is as long as its last month, February of the next year, makes
      it. */
  lemma YearLength(y: int)
    ensures YearStart(y) == YearStart(y - 1) + (if LeapYear(y) then 366 else 365)
  {
    var era := y / 400;
    var k := y - era * 400;
    assert y == 400 * era + k && 0 <= k < 400;
    LeapInEra(era, k);
    if k == 0 {
      assert (y - 1) / 400 == era - 1;
    } else {
      assert (y - 1) / 400 == era;
    }
  }

  lemma LeapInEra(era: int, k: int)
    requires 0 <= k < 400
    ensures LeapYear(400 * era + k) <==> k % 4 == 0 && (k % 100 != 0 || k == 0)
    ensures k > 0 ==> k / 4 - (k - 1) / 4 == (if k % 4 == 0 then 1 else 0)
    ensures k > 0 ==> k / 100 - (k - 1) / 100 == (if k % 100 == 0 then 1 else 0)
  {
    ModUnique(400 * era + k, 4, 100 * era + k / 4, k % 4);
    ModUnique(400 * era + k, 100, 4 * era + k / 100, k % 100);
    ModUnique(400 * era + k, 400, era, k);
  }

  /** The days of a year from March on before a month. */
  function MonthStart(month: int): int
  {
    (153 * ((month + 9) % 12) + 2) / 5
  }

  lemma MonthStarts(month: int)
    requires 1 <= month <= 12
    ensures month != 2 ==> MonthStart(month % 12 + 1) == MonthStart(month) + (if month in {4, 6, 9, 11} then 30 else 31)
    ensures MonthStart(2) == 337 && MonthStart(3) == 0
  {
  }

  /** A date counts from the March before it. */
  lemma ByYear(y: int, month: int, day: int)
    ensures DaysFromCivil(y, month, day)
      == YearStart(if month <= 2 then y - 1 else y) + MonthStart(month) + day - 1 - 719_468
  {
  }

  /** The year from March on that a date is in. */
  function MarchYear(y: int, month: int): int
  {
    if month <= 2 then y - 1 else y
  }

  lemma MonthEnd(y: int, month: int)
    requires 1 <= month <= 12 && month != 2
    ensures var next := month % 12 + 1;
      && MarchYear(y, month) == MarchYear(if month < 12 then y else y + 1, next)
      && MonthStart(next) == MonthStart(month) + MonthLength(y, month)
  {
    MonthStarts(month);
  }

  /** Counting a date, and the date after it, differ by one: with DayZero, this makes
      DaysFromCivil the number of days since 1970 for every date. */
  lemma NextDayCounts(y: int, month: int, day: int)
    requires CivilDate(y, month, day)
    ensures var n := NextDay(y, month, day);
      CivilDate(n.0, n.1, n.2) && DaysFromCivil(n.0, n.1, n.2) == DaysFromCivil(y, month, day) + 1
  {
    var n := NextDay(y, month, day);
    if day < MonthLength(y, month) {
      OneDayMore(y, month, day);
      assert n == (y, month, day + 1);
    } else if month == 2 {
      FebruaryEnds(y);
      assert n == (y, 3, 1);
    } else {
      MonthEnds(y, month);
      assert n == (if month < 12 then y else y + 1, month % 12 + 1, 1);
    }
  }

  lemma OneDayMore(y: int, month: int, day: int)
    ensures DaysFromCivil(y, month, day + 1) == DaysFromCivil(y, month, day) + 1
  {
    ByYear(y, month, day);
    ByYear(y, month, day + 1);
  }

  lemma FebruaryEnds(y: int)
    ensures DaysFromCivil(y, 3, 1) == DaysFromCivil(y, 2, MonthLength(y, 2)) + 1
  {
    ByYear(y, 2, MonthLength(y, 2));
    ByYear(y, 3, 1);
    MonthStarts(2);
    YearLength(y);
  }

  lemma MonthEnds(y: int, month: int)
    requires 1 <= month <= 12 && month != 2
    ensures DaysFromCivil(if month < 12 then y else y + 1, month % 12 + 1, 1) == DaysFromCivil(y, month, MonthLength(y, month)) + 1
  {
    ByYear(y, month, MonthLength(y, month));
    ByYear(if month < 12 then y else y + 1, month % 12 + 1, 1);
    MonthEnd(y, month);
  }

  // ---- every day counts once ---------------------------------------------------------------

  lemma {:induction false} YearsApart(y: int, z: int)
    requires y <= z
    ensures YearStart(y) <= YearStart(z)
    decreases z - y
  {
    if y < z {
      YearsApart(y, z - 1);
      YearLength(z);
    }
  }

  /** Months in the order they come from March on. */
  function FromMarch(month: int): int
  {
    (month + 9) % 12
  }

  lemma MonthEndsBefore(y: int, month: int, later: int)
    requires 1 <= month <= 12 && 1 <= later <= 12 && FromMarch(month) < FromMarch(later)
    ensures MonthStart(month) + MonthLength(y, month) <= MonthStart(later)
  {
    MonthTable(month);
    MonthTable(later);
  }

  lemma MonthTable(month: int)
    requires 1 <= month <= 12
    ensures var f := FromMarch(month);
      0 <= f < 12 && MonthStart(month) == [0, 31, 61, 92, 122, 153, 184, 214, 245, 275, 306, 337][f]
    ensures month in {4, 6, 9, 11} <==> FromMarch(month) in {1, 3, 6, 8}
    ensures month == 2 <==> FromMarch(month) == 11
  {
  }

  /** A date is in its year from March on: before the next one starts. */
  lemma InsideYear(y: int, month: int, day: int)
    requires CivilDate(y, month, day)
    ensures var n := DaysFromCivil(y, month, day) + 719_468;
      YearStart(MarchYear(y, month)) <= n < YearStart(MarchYear(y, month) + 1)
  {
    ByYear(y, month, day);
    MonthTable(month);
    YearLength(MarchYear(y, month) + 1);
    if month != 2 { MonthEndsBefore(y, month, 2); }
  }

  /** Two dates that count the same are the same date. */
  lemma DaysTellDates(y: int, month: int, day: int, y': int, month': int, day': int)
    requires CivilDate(y, month, day) && CivilDate(y', month', day')
    requires DaysFromCivil(y, month, day) == DaysFromCivil(y', month', day')
    ensures (y, month, day) == (y', month', day')
  {
    var a, b := MarchYear(y, month), MarchYear(y', month');
    InsideYear(y, month, day);
    InsideYear(y', month', day');
    if a < b { YearsApart(a + 1, b); }
    if b < a { YearsApart(b + 1, a); }
    assert a == b;
    SameYear(y, month, day, y', month', day');
  }

  lemma SameYear(y: int, month: int, day: int, y': int, month': int, day': int)
    requires CivilDate(y, month, day) && CivilDate(y', month', day') && MarchYear(y, month) == MarchYear(y', month')
    requires DaysFromCivil(y, month, day) == DaysFromCivil(y', month', day')
    ensures (y, month, day) == (y', month', day')
  {
    ByYear(y, month, day);
    ByYear(y', month', day');
    if FromMarch(month) < FromMarch(month') { MonthEndsBefore(y, month, month'); }
    if FromMarch(month') < FromMarch(month) { MonthEndsBefore(y', month', month); }
    SameMonth(month, month');
  }

  lemma SameMonth(month: int, other: int)
    requires 1 <= month <= 12 && 1 <= other <= 12 && FromMarch(month) == FromMarch(other)
    ensures month == other
  {
  }

  lemma DayZero()
    ensures DaysFromCivil(1970, 1, 1) == 0
  {
  }

  /** The date n days after the first of January 1970. */
  function DateOf(n: nat): (int, int, int)
  {
    if n == 0 then (1970, 1, 1) else var d := DateOf(n - 1); NextDay(d.0, d.1, d.2)
  }

  lemma {:induction false} DaysCountDates(n: nat)
    ensures var d := DateOf(n); CivilDate(d.0, d.1, d.2) && DaysFromCivil(d.0, d.1, d.2) == n
  {
    if n == 0 {
      DayZero();
    } else {
      DaysCountDates(n - 1);
      var d := DateOf(n - 1);
      NextDayCounts(d.0, d.1, d.2);
    }
  }

  /** A day past the end of its month counts on into the next. */
  lemma PastMonthEnd(y: int, month: int, day: int)
    requires 1 <= month <= 12 && MonthLength(y, month) < day <= 31
    ensures month < 12 && CivilDate(y, month + 1, day - MonthLength(y, month))
    ensures DaysFromCivil(y, month, day) == DaysFromCivil(y, month + 1, day - MonthLength(y, month))
  {
    NextDayCounts(y, month, MonthLength(y, month));
  }

  // ---- certificate times -----------------------------------------------------------------------

  const UTC_TIME: u8 := 0x17
  const GENERALIZED_TIME: u8 := 0x18

  predicate Digit(c: u8)
  {
    0x30 <= c <= 0x39
  }

  /** The number decimal digits state. */
  function Number(s: seq<u8>): nat
  {
    if s == [] then 0
    else 10 * Number(s[..|s| - 1]) + (if Digit(s[|s| - 1]) then s[|s| - 1] as nat - 0x30 else 0)
  }

  /** Two digits of the fields after the year. */
  function Field(rest: seq<u8>, i: nat): nat
    requires 2 * i + 2 <= |rest|
  {
    Number(rest[2 * i..2 * i + 2])
  }

  /** The moment of a year and ten digits; None when a field is out of range. */
  function Moment(year: int, rest: seq<u8>): Option<int>
    requires |rest| == 10
  {
    var month, day, hour, minute, second := Field(rest, 0), Field(rest, 1), Field(rest, 2), Field(rest, 3), Field(rest, 4);
    if month < 1 || month > 12 || day < 1 || day > 31 || hour > 23 || minute > 59 || second > 60 then None
    else Some(DaysFromCivil(year, month, day) * 86_400 + hour * 3_600 + minute * 60 + second)
  }

  function Time(tag: u8, contents: seq<u8>): Option<int>
  {
    var digits := if tag == UTC_TIME then 12 else 14;
    if tag != UTC_TIME && tag != GENERALIZED_TIME then None
    else if contents == [] || contents[|contents| - 1] != 0x5a then None
    else TimeOf(tag == UTC_TIME, digits, contents[..|contents| - 1])
  }

  predicate AllDigits(s: seq<u8>)
  {
    forall c :: c in s ==> Digit(c)
  }

  function TimeOf(utc: bool, digits: nat, body: seq<u8>): Option<int>
    requires digits == if utc then 12 else 14
  {
    if |body| != digits || !AllDigits(body) then None
    else if utc then Moment(YearIn(Number(body[..2])), body[2..])
    else Moment(Number(body[..4]), body[4..])
  }

  /** Years of 50 and above are of the century before. */
  function YearIn(yy: nat): nat
  {
    if yy >= 50 then 1900 + yy else 2000 + yy
  }

  lemma NumberPush(s: seq<u8>, a: u8)
    requires Digit(a)
    ensures Number(s + [a]) == 10 * Number(s) + (a as nat - 0x30)
  {
    assert (s + [a])[..|s|] == s;
  }

  lemma NumberAppend(s: seq<u8>, a: u8, b: u8)
    requires Digit(a) && Digit(b)
    ensures Number(s + [a, b]) == 100 * Number(s) + 10 * (a as nat - 0x30) + (b as nat - 0x30)
  {
    assert s + [a, b] == (s + [a]) + [b];
    NumberPush(s, a);
    NumberPush(s + [a], b);
  }

  function Century(yy: seq<u8>): seq<u8>
  {
    if Number(yy) >= 50 then [0x31, 0x39] else [0x32, 0x30]
  }

  lemma CenturyYear(yy: seq<u8>)
    requires |yy| == 2 && AllDigits(yy)
    ensures Number(Century(yy) + yy) == YearIn(Number(yy))
  {
    TwoDigits(Century(yy));
    TwoDigits(yy);
    NumberAppend(Century(yy), yy[0], yy[1]);
    assert Century(yy) + yy == Century(yy) + [yy[0], yy[1]];
  }

  lemma SameBody(yy: seq<u8>, rest: seq<u8>)
    requires |yy| == 2 && AllDigits(yy)
    ensures TimeOf(true, 12, yy + rest) == TimeOf(false, 14, Century(yy) + yy + rest)
  {
    var u, v := yy + rest, Century(yy) + yy + rest;
    CenturyYear(yy);
    assert v == Century(yy) + u;
    assert AllDigits(u) <==> AllDigits(v) by {
      assert forall c :: c in v <==> c in Century(yy) || c in u;
      assert AllDigits(Century(yy));
    }
    if |rest| == 10 {
      assert u[..2] == yy && u[2..] == rest && v[..4] == Century(yy) + yy && v[4..] == rest;
    }
  }

  /** A two-digit year means the same moment as its four-digit year. */
  lemma TwoDigitYears(yy: seq<u8>, rest: seq<u8>)
    requires |yy| == 2 && AllDigits(yy)
    ensures Time(UTC_TIME, yy + rest) == Time(GENERALIZED_TIME, Century(yy) + yy + rest)
  {
    var x, y := yy + rest, Century(yy) + yy + rest;
    if rest != [] {
      var r := rest[..|rest| - 1];
      assert x[..|x| - 1] == yy + r && y[..|y| - 1] == Century(yy) + yy + r;
      SameBody(yy, r);
    } else {
      assert Digit(yy[1]) && Digit(y[3]) by { assert yy[1] in yy && y[3] == yy[1]; }
      assert x[|x| - 1] == yy[1] && y[|y| - 1] == yy[1];
    }
  }

  // ---- what a time is read as ------------------------------------------------------------------

  /** A date and time of day as they are written. */
  datatype Written = Written(year: int, month: int, day: int, hour: int, minute: int, second: int)

  function WrittenAt(year: int, rest: seq<u8>): Written
    requires |rest| == 10
  {
    Written(year, Field(rest, 0), Field(rest, 1), Field(rest, 2), Field(rest, 3), Field(rest, 4))
  }

  /** The fields of a time that is read. */
  function WrittenIn(tag: u8, contents: seq<u8>): Written
    requires Time(tag, contents).Some?
  {
    var body := contents[..|contents| - 1];
    if tag == UTC_TIME then WrittenAt(YearIn(Number(body[..2])), body[2..]) else WrittenAt(Number(body[..4]), body[4..])
  }

  /** m seconds after 1970 began it is that time of that day. */
  predicate IsMoment(w: Written, m: int)
  {
    && CivilDate(w.year, w.month, w.day) && 0 <= w.hour < 24 && 0 <= w.minute < 60 && 0 <= w.second < 60
    && m == DaysFromCivil(w.year, w.month, w.day) * 86_400 + w.hour * 3_600 + w.minute * 60 + w.second
  }

  /** Every moment has one date and time. */
  lemma MomentTellsTime(a: Written, b: Written, m: int)
    requires IsMoment(a, m) && IsMoment(b, m)
    ensures a == b
  {
    DaysTellDates(a.year, a.month, a.day, b.year, b.month, b.day);
  }

  /** A day past the end of its month, counted on into the next. */
  function CountedOn(w: Written): Written
  {
    var n := MonthLength(w.year, w.month);
    if w.day <= n then w else w.(month := w.month + 1, day := w.day - n)
  }

  /** What a time that is read means: the moment written if and only if its month has that
      day and the second is no leap second; otherwise the day counts on into the next
      month, and second 60 is the second after second 59. */
  lemma TimeMeans(tag: u8, contents: seq<u8>)
    requires Time(tag, contents).Some?
    ensures var (w, m) := (WrittenIn(tag, contents), Time(tag, contents).value);
      && (IsMoment(w, m) <==> w.day <= MonthLength(w.year, w.month) && w.second <= 59)
      && (if w.second <= 59 then IsMoment(CountedOn(w), m) else w.second == 60 && IsMoment(CountedOn(w).(second := 59), m - 1))
  {
    MomentMeans(WrittenIn(tag, contents), Time(tag, contents).value);
  }

  lemma MomentMeans(w: Written, m: int)
    requires 1 <= w.month <= 12 && 1 <= w.day <= 31 && 0 <= w.hour <= 23 && 0 <= w.minute <= 59 && 0 <= w.second <= 60
    requires m == DaysFromCivil(w.year, w.month, w.day) * 86_400 + w.hour * 3_600 + w.minute * 60 + w.second
    ensures IsMoment(w, m) <==> w.day <= MonthLength(w.year, w.month) && w.second <= 59
    ensures if w.second <= 59 then IsMoment(CountedOn(w), m) else IsMoment(CountedOn(w).(second := 59), m - 1)
  {
    if w.day > MonthLength(w.year, w.month) {
      PastMonthEnd(w.year, w.month, w.day);
    }
  }

  /** The thirtieth of February is read as the first or second of March: the check on the
      day does not ask how long the month is. */
  lemma FebruaryThirtieth(tag: u8, contents: seq<u8>)
    requires Time(tag, contents).Some?
    requires var w := WrittenIn(tag, contents); w.month == 2 && w.day == 30 && w.second <= 59
    ensures var w := WrittenIn(tag, contents);
      IsMoment(w.(month := 3, day := if LeapYear(w.year) then 1 else 2), Time(tag, contents).value)
  {
    TimeMeans(tag, contents);
  }

  /** Four digits of a year and ten more are read as they are written. */
  lemma ReadAsWritten(year: seq<u8>, rest: seq<u8>)
    requires |year| == 4 && |rest| == 10 && AllDigits(year) && AllDigits(rest)
    ensures Time(GENERALIZED_TIME, year + rest + [0x5a]) == Moment(Number(year), rest)
    ensures Moment(Number(year), rest).Some? ==>
      WrittenIn(GENERALIZED_TIME, year + rest + [0x5a]) == WrittenAt(Number(year), rest)
  {
    var contents := year + rest + [0x5a];
    var body := contents[..|contents| - 1];
    assert body == year + rest && body[..4] == year && body[4..] == rest;
    assert AllDigits(body) by {
      assert forall c :: c in body ==> c in year || c in rest;
    }
  }

  predicate ReadAs(contents: seq<u8>, w: Written)
  {
    Time(GENERALIZED_TIME, contents).Some? && WrittenIn(GENERALIZED_TIME, contents) == w
  }

  lemma WrittenIsRead(year: seq<u8>, rest: seq<u8>, y: nat, w: Written)
    requires |year| == 4 && |rest| == 10 && AllDigits(year) && AllDigits(rest)
    requires Number(year) == y && Moment(y, rest).Some? && WrittenAt(y, rest) == w
    ensures ReadAs(year + rest + [0x5a], w)
  {
    ReadAsWritten(year, rest);
  }

  /** And such a time can be written: 20230230000000Z. */
  lemma FebruaryThirtiethIsRead() returns (contents: seq<u8>)
    ensures ReadAs(contents, Written(2023, 2, 30, 0, 0, 0))
  {
    var year: seq<u8> := [0x32, 0x30, 0x32, 0x33];
    var rest: seq<u8> := [0x30, 0x32, 0x33, 0x30, 0x30, 0x30, 0x30, 0x30, 0x30, 0x30];
    YearOf(year);
    LateFebruary(rest);
    WrittenIsRead(year, rest, 2023, Written(2023, 2, 30, 0, 0, 0));
    contents := year + rest + [0x5a];
  }

  lemma LateFebruary(rest: seq<u8>)
    requires rest == [0x30, 0x32, 0x33, 0x30, 0x30, 0x30, 0x30, 0x30, 0x30, 0x30]
    ensures WrittenAt(2023, rest) == Written(2023, 2, 30, 0, 0, 0) && Moment(2023, rest).Some?
  {
    TwoDigits(rest[0..2]);
    TwoDigits(rest[2..4]);
    TwoDigits(rest[4..6]);
    TwoDigits(rest[6..8]);
    TwoDigits(rest[8..10]);
  }

  lemma TwoDigits(s: seq<u8>)
    requires |s| == 2 && AllDigits(s)
    ensures Number(s) == 10 * (s[0] as nat - 0x30) + (s[1] as nat - 0x30)
  {
    assert s[0] in s && s[1] in s;
    NumberPush([], s[0]);
    NumberPush([s[0]], s[1]);
    assert [] + [s[0]] == [s[0]] && [s[0]] + [s[1]] == s;
  }

  lemma YearOf(s: seq<u8>)
    requires |s| == 4 && AllDigits(s)
    ensures Number(s) == 1000 * (s[0] as nat - 0x30) + 100 * (s[1] as nat - 0x30) + 10 * (s[2] as nat - 0x30) + (s[3] as nat - 0x30)
  {
    assert s[0] in s && s[1] in s && s[2] in s && s[3] in s;
    assert s == s[..2] + [s[2], s[3]];
    NumberAppend(s[..2], s[2], s[3]);
    TwoDigits(s[..2]);
  }
}
