/**
 Times as text: the date computed from the number of days is the Gregorian calendar's, and before the year 10000 the
 texts compare exactly as the times do.
 */
module Times {

  datatype Date = Date(year: int, month: int, day: int)

  // The calendar, by its rules.

  predicate Leap(year: int) {
    year % 4 == 0 && (year % 100 != 0 || year % 400 == 0)
  }

  function MonthDays(year: int, month: int): nat {
    if month == 2 then (if Leap(year) then 29 else 28) else if month in {4, 6, 9, 11} then 30 else 31
  }

  function NextDay(d: Date): Date {
    if d.day < MonthDays(d.year, d.month) then d.(day := d.day + 1)
    else if d.month < 12 then Date(d.year, d.month + 1, 1)
    else Date(d.year + 1, 1, 1)
  }

  /** The date so many days after the first of January 1970. */
  function DateOf(days: nat): Date {
    if days == 0 then Date(1970, 1, 1) else NextDay(DateOf(days - 1))
  }

  // The computation.

  function CivilFromDays(days: nat): Date {
    var z := days + 719_468;
    var era := z / 146_097;
    FromEra(era, z - era * 146_097)
  }

  function FromEra(era: int, doe: int): Date {
    var yoe := YearOfEra(doe);
    FromYear(yoe + era * 400, doe - (365 * yoe + yoe / 4 - yoe / 100))
  }

  function FromYear(y: int, doy: int): Date {
    var mp := (5 * doy + 2) / 153;
    var day := doy - (153 * mp + 2) / 5 + 1;
    var month := if mp < 10 then mp + 3 else mp - 9;
    var year := y + if month <= 2 then 1 else 0;
    Date(year, month, day)
  }

  function YearOfEra(doe: int): int {
    (doe - doe / 1460 + doe / 36_524 - doe / 146_096) / 365
  }

  // Years that begin in March, so that a leap day ends one.

  function YearDays(y: nat): nat {
    if Leap(y + 1) then 366 else 365
  }

  /** The days before the year that begins in March of `y`, from March of the year 0. */
  function YearStart(y: nat): nat {
    365 * y + y / 4 - y / 100 + y / 400
  }

  lemma NextQuarter(y: nat)
    ensures (y + 1) / 4 == y / 4 + if (y + 1) % 4 == 0 then 1 else 0
  {}

  lemma NextCentury(y: nat)
    ensures (y + 1) / 100 == y / 100 + if (y + 1) % 100 == 0 then 1 else 0
    ensures (y + 1) % 100 == 0 ==> (y + 1) % 4 == 0
  {}

  lemma NextEra(y: nat)
    ensures (y + 1) / 400 == y / 400 + if (y + 1) % 400 == 0 then 1 else 0
    ensures (y + 1) % 400 == 0 ==> (y + 1) % 100 == 0
  {}

  lemma YearStartNext(y: nat)
    ensures YearStart(y + 1) == YearStart(y) + YearDays(y)
  {
    NextQuarter(y);
    NextCentury(y);
    NextEra(y);
  }

  /** The year of an era is found from its days, through its centuries, its runs of four years and its years. */
  lemma YearFound(c: nat, q: nat, y: nat, doy: nat)
    requires c < 4 && q < 25 && y < 4 && doy < YearDays(100 * c + 4 * q + y)
    ensures YearOfEra(36_524 * c + 1461 * q + 365 * y + doy) == 100 * c + 4 * q + y
  {
    var doe := 36_524 * c + 1461 * q + 365 * y + doy;
    var e := if 24 * c + q + 365 * y + doy >= 1460 then 1 else 0;
    assert doe / 1460 == 25 * c + q + e;
    var last := if doe == 146_096 then 1 else 0;
    assert doe / 36_524 == c + last && doe / 146_096 == last;
    assert 0 <= doy - e < 365;
    assert doe - doe / 1460 + doe / 36_524 - doe / 146_096 == 365 * (100 * c + 4 * q + y) + (doy - e);
  }

  /** An era's part of a year's start. */
  lemma EraStart(era: nat, c: nat, q: nat, y: nat)
    requires c < 4 && q < 25 && y < 4
    ensures YearStart(400 * era + 100 * c + 4 * q + y) == 146_097 * era + 36_524 * c + 1461 * q + 365 * y
  {
    var year := 400 * era + 100 * c + 4 * q + y;
    assert year / 4 == 100 * era + 25 * c + q;
    assert year / 100 == 4 * era + c;
    assert year / 400 == era;
  }

  /** A leap year is one by its place in an era. */
  lemma EraLeap(era: nat, yoe: nat)
    requires yoe < 400
    ensures YearDays(400 * era + yoe) == YearDays(yoe)
  {
    QuarterLeap(era, yoe + 1);
    CenturyLeap(era, yoe + 1);
  }

  lemma QuarterLeap(era: nat, y: nat)
    ensures (400 * era + y) % 4 == y % 4
  {
    Mod4(400 * era + y, 100 * era + y / 4, y % 4);
  }

  lemma CenturyLeap(era: nat, y: nat)
    ensures (400 * era + y) % 100 == y % 100 && (400 * era + y) % 400 == y % 400
  {
    Mod100(400 * era + y, 4 * era + y / 100, y % 100);
    Mod400(400 * era + y, era + y / 400, y % 400);
  }

  lemma Mod4(n: nat, q: nat, r: nat)
    requires n == 4 * q + r && r < 4
    ensures n % 4 == r
  {}

  lemma Mod100(n: nat, q: nat, r: nat)
    requires n == 100 * q + r && r < 100
    ensures n % 100 == r
  {}

  lemma Mod400(n: nat, q: nat, r: nat)
    requires n == 400 * q + r && r < 400
    ensures n % 400 == r
  {}

  /** The computation finds the year and the day of it. */
  lemma CivilFound(days: nat, y: nat, doy: nat)
    requires days + 719_468 == YearStart(y) + doy && doy < YearDays(y)
    ensures CivilFromDays(days) == FromYear(y, doy)
  {
    var (era, yoe) := (y / 400, y % 400);
    var (c, q, r) := Split(yoe);
    assert y == 400 * era + 100 * c + 4 * q + r;
    EraLeap(era, yoe);
    CivilFoundAt(days, era, c, q, r, doy);
  }

  lemma CivilFoundAt(days: nat, era: nat, c: nat, q: nat, r: nat, doy: nat)
    requires c < 4 && q < 25 && r < 4 && doy < YearDays(100 * c + 4 * q + r)
    requires days + 719_468 == YearStart(400 * era + 100 * c + 4 * q + r) + doy
    ensures CivilFromDays(days) == FromYear(400 * era + 100 * c + 4 * q + r, doy)
  {
    EraStart(era, c, q, r);
    EraFits(c, q, r, doy);
    EraFound(days + 719_468, era, 36_524 * c + 1461 * q + 365 * r + doy);
    DayFound(era, c, q, r, doy);
  }

  function Split(yoe: nat): (p: (nat, nat, nat))
    requires yoe < 400
    ensures p.0 < 4 && p.1 < 25 && p.2 < 4 && yoe == 100 * p.0 + 4 * p.1 + p.2
  {
    (yoe / 100, yoe % 100 / 4, yoe % 4)
  }

  lemma EraFound(z: nat, era: nat, doe: nat)
    requires z == 146_097 * era + doe && doe < 146_097
    ensures z / 146_097 == era && z - era * 146_097 == doe
  {}

  lemma DayFound(era: nat, c: nat, q: nat, y: nat, doy: nat)
    requires c < 4 && q < 25 && y < 4 && doy < YearDays(100 * c + 4 * q + y)
    ensures FromEra(era, 36_524 * c + 1461 * q + 365 * y + doy) == FromYear(400 * era + 100 * c + 4 * q + y, doy)
  {
    var yoe := 100 * c + 4 * q + y;
    YearFound(c, q, y, doy);
    EraStart(0, c, q, y);
    assert yoe / 400 == 0;
  }

  lemma EraFits(c: nat, q: nat, y: nat, doy: nat)
    requires c < 4 && q < 25 && y < 4 && doy < YearDays(100 * c + 4 * q + y)
    ensures 36_524 * c + 1461 * q + 365 * y + doy < 146_097
  {}

  /** The day after a day of such a year is the calendar's. */
  lemma DayAfter(y: nat, doy: nat)
    requires doy < YearDays(y)
    ensures NextDay(FromYear(y, doy)) == if doy + 1 < YearDays(y) then FromYear(y, doy + 1) else FromYear(y + 1, 0)
  {
    var mp := (5 * doy + 2) / 153;
    assert mp < 12;
    assert mp in {0, 1, 2, 3, 4, 5, 6, 7, 8, 9, 10, 11};
  }

  /** Where a number of days after the first of January 1970 lies. */
  lemma {:induction false} CivilSteps(days: nat) returns (y: nat, doy: nat)
    ensures days + 719_468 == YearStart(y) + doy && doy < YearDays(y) && DateOf(days) == FromYear(y, doy)
    decreases days
  {
    if days == 0 {
      y, doy := 1969, 306;
    } else {
      var y', doy' := CivilSteps(days - 1);
      DayAfter(y', doy');
      YearStartNext(y');
      if doy' + 1 < YearDays(y') { y, doy := y', doy' + 1; } else { y, doy := y' + 1, 0; }
    }
  }

  /** The date computed is the calendar's, for every number of days. */
  lemma CivilIsCalendar(days: nat)
    ensures CivilFromDays(days) == DateOf(days)
  {
    var y, doy := CivilSteps(days);
    CivilFound(days, y, doy);
  }

  // The text.

  function Digit(n: nat): char
    requires n < 10
  {
    '0' + n as char
  }

  /** A number's digits, with zeros before them to a width. */
  function Pad(n: nat, width: nat): string
    decreases n, width
  {
    if n == 0 && width == 0 then "" else Pad(n / 10, if width > 0 then width - 1 else 0) + [Digit(n % 10)]
  }

  datatype Field = Field(value: nat, width: nat, after: char)

  function Text(fields: seq<Field>): string {
    if fields == [] then "" else Pad(fields[0].value, fields[0].width) + [fields[0].after] + Text(fields[1..])
  }

  function Fields(ms: nat): seq<Field> {
    var (days, secs) := (ms / 1000 / 86_400, ms / 1000 % 86_400);
    CivilSpans(days);
    var date := CivilFromDays(days);
    [Field(date.year, 4, '-'), Field(date.month, 2, '-'), Field(date.day, 2, 'T'),
     Field(secs / 3600, 2, ':'), Field(secs / 60 % 60, 2, ':'), Field(secs % 60, 2, 'Z')]
  }

  /** The text of an instant: its fields in a row, at whole seconds. */
  function Iso(ms: nat): string {
    Text(Fields(ms))
  }

  /** A date computed is a day of a month from 1970 on. */
  lemma {:induction false} CivilSpans(days: nat)
    ensures var d := CivilFromDays(days); 1970 <= d.year && 1 <= d.month <= 12 && 1 <= d.day <= 31
    decreases days
  {
    CivilIsCalendar(days);
    if days > 0 {
      CivilSpans(days - 1);
      CivilIsCalendar(days - 1);
    }
  }

  function Pow10(n: nat): nat {
    if n == 0 then 1 else 10 * Pow10(n - 1)
  }

  /** How texts compare. */
  predicate Less(a: string, b: string) {
    b != "" && (a == "" || a[0] < b[0] || (a[0] == b[0] && Less(a[1..], b[1..])))
  }

  lemma {:induction false} LessConcat(a: string, b: string, x: string, y: string)
    requires |a| == |b|
    ensures Less(a + x, b + y) <==> Less(a, b) || (a == b && Less(x, y))
    decreases |a|
  {
    if a == "" {
      assert a + x == x && b + y == y;
    } else {
      assert (a + x)[1..] == a[1..] + x && (b + y)[1..] == b[1..] + y;
      LessConcat(a[1..], b[1..], x, y);
      assert a == [a[0]] + a[1..] && b == [b[0]] + b[1..];
    }
  }

  lemma {:induction false} PadSize(n: nat, width: nat)
    requires n < Pow10(width)
    ensures |Pad(n, width)| == width
    decreases width
  {
    if width > 0 { PadSize(n / 10, width - 1); }
  }

  /** Numbers within a width compare as their digits do. */
  lemma {:induction false} PadOrder(n: nat, m: nat, width: nat)
    requires n < Pow10(width) && m < Pow10(width)
    ensures Less(Pad(n, width), Pad(m, width)) <==> n < m
    ensures Pad(n, width) == Pad(m, width) <==> n == m
    decreases width
  {
    if width > 0 {
      PadOrder(n / 10, m / 10, width - 1);
      PadSize(n / 10, width - 1);
      PadSize(m / 10, width - 1);
      LessConcat(Pad(n / 10, width - 1), Pad(m / 10, width - 1), [Digit(n % 10)], [Digit(m % 10)]);
      assert Less([Digit(n % 10)], [Digit(m % 10)]) <==> n % 10 < m % 10;
      var a, b := Pad(n, width), Pad(m, width);
      if a == b {
        assert a[..width - 1] == Pad(n / 10, width - 1) && b[..width - 1] == Pad(m / 10, width - 1);
        assert a[width - 1] == Digit(n % 10) && b[width - 1] == Digit(m % 10);
      }
    }
  }

  /** How fields compare: by the first that differs. */
  predicate Lower(a: seq<Field>, b: seq<Field>)
    requires |a| == |b|
  {
    a != [] && (a[0].value < b[0].value || (a[0].value == b[0].value && Lower(a[1..], b[1..])))
  }

  /** Two rows of fields of the same form, each value within its width. */
  ghost predicate Alike(a: seq<Field>, b: seq<Field>) {
    |a| == |b| && forall i | 0 <= i < |a| ::
      a[i].width == b[i].width && a[i].after == b[i].after && a[i].value < Pow10(a[i].width)
        && b[i].value < Pow10(b[i].width)
  }

  /** Texts of the same form compare as their fields do. */
  lemma {:induction false} TextOrder(a: seq<Field>, b: seq<Field>)
    requires Alike(a, b)
    ensures Less(Text(a), Text(b)) <==> Lower(a, b)
    decreases |a|
  {
    if a != [] {
      var (x, y) := (Pad(a[0].value, a[0].width), Pad(b[0].value, b[0].width));
      var (s, t) := (Text(a[1..]), Text(b[1..]));
      PadOrder(a[0].value, b[0].value, a[0].width);
      PadSize(a[0].value, a[0].width);
      PadSize(b[0].value, b[0].width);
      TextOrder(a[1..], b[1..]);
      LessConcat(x, y, [a[0].after] + s, [b[0].after] + t);
      LessConcat([a[0].after], [b[0].after], s, t);
      assert x + [a[0].after] + s == x + ([a[0].after] + s) && y + [b[0].after] + t == y + ([b[0].after] + t);
    }
  }

  predicate Earlier(a: Date, b: Date) {
    a.year < b.year || (a.year == b.year && (a.month < b.month || (a.month == b.month && a.day < b.day)))
  }

  lemma NextIsLater(d: Date)
    requires 1 <= d.month <= 12
    ensures Earlier(d, NextDay(d)) && 1 <= NextDay(d).month <= 12
  {}

  lemma {:induction false} CalendarRises(a: nat, b: nat)
    requires a <= b
    ensures 1 <= DateOf(b).month <= 12 && (a < b ==> Earlier(DateOf(a), DateOf(b)))
    decreases b
  {
    if a < b {
      CalendarRises(a, b - 1);
      NextIsLater(DateOf(b - 1));
    } else if b > 0 {
      CalendarRises(b - 1, b - 1);
      NextIsLater(DateOf(b - 1));
    }
  }

  lemma DatesRise(a: nat, b: nat)
    requires a < b
    ensures Earlier(CivilFromDays(a), CivilFromDays(b))
  {
    CivilIsCalendar(a);
    CivilIsCalendar(b);
    CalendarRises(a, b);
  }

  /** The first instant of the year 10000. */
  const TEN_THOUSAND: nat := 253_402_300_800_000

  lemma BeforeTenThousand(ms: nat)
    ensures ms < TEN_THOUSAND <==> CivilFromDays(ms / 1000 / 86_400).year < 10_000
  {
    var days := ms / 1000 / 86_400;
    LastAndFirst();
    if days < 2_932_896 { DatesRise(days, 2_932_896); }
    if days > 2_932_897 { DatesRise(2_932_897, days); }
  }

  lemma LastAndFirst()
    ensures CivilFromDays(2_932_896) == Date(9999, 12, 31) && CivilFromDays(2_932_897) == Date(10_000, 1, 1)
  {
    CivilFound(2_932_896, 9999, 305);
    CivilFound(2_932_897, 9999, 306);
  }

  lemma LowerFrom(a: seq<Field>, b: seq<Field>, i: nat)
    requires |a| == |b| && i < |a|
    ensures Lower(a[i..], b[i..]) <==>
      a[i].value < b[i].value || (a[i].value == b[i].value && Lower(a[i + 1..], b[i + 1..]))
  {
    assert a[i..][1..] == a[i + 1..] && b[i..][1..] == b[i + 1..];
  }

  lemma TimeOrder(a: nat, b: nat)
    requires a < 86_400 && b < 86_400
    ensures a < b <==>
      || a / 3600 < b / 3600
      || (a / 3600 == b / 3600 && (a / 60 % 60 < b / 60 % 60 || (a / 60 % 60 == b / 60 % 60 && a % 60 < b % 60)))
  {
    assert a == 3600 * (a / 3600) + 60 * (a / 60 % 60) + a % 60;
    assert b == 3600 * (b / 3600) + 60 * (b / 60 % 60) + b % 60;
  }

  /** Six fields: a date's and a time's. */
  lemma LowerSix(f: seq<Field>, g: seq<Field>)
    requires |f| == |g| == 6
    ensures Lower(f, g) <==>
      var (d, e) := (Date(f[0].value, f[1].value, f[2].value), Date(g[0].value, g[1].value, g[2].value));
      Earlier(d, e) || (d == e && Lower(f[3..], g[3..]))
  {
    assert f[0..] == f && g[0..] == g;
    LowerFrom(f, g, 0);
    LowerFrom(f, g, 1);
    LowerFrom(f, g, 2);
  }

  lemma LowerThree(f: seq<Field>, g: seq<Field>)
    requires |f| == |g| == 6
    ensures Lower(f[3..], g[3..]) <==>
      f[3].value < g[3].value || (f[3].value == g[3].value
        && (f[4].value < g[4].value || (f[4].value == g[4].value && f[5].value < g[5].value)))
  {
    LowerFrom(f, g, 3);
    LowerFrom(f, g, 4);
    LowerFrom(f, g, 5);
  }

  lemma DatesOrder(c: nat, d: nat)
    ensures Earlier(CivilFromDays(c), CivilFromDays(d)) <==> c < d
    ensures CivilFromDays(c) == CivilFromDays(d) <==> c == d
  {
    if c < d { DatesRise(c, d); }
    if d < c { DatesRise(d, c); }
  }

  lemma TimeLower(a: nat, b: nat)
    ensures Lower(Fields(a)[3..], Fields(b)[3..]) <==> a / 1000 % 86_400 < b / 1000 % 86_400
  {
    LowerThree(Fields(a), Fields(b));
    TimeOrder(a / 1000 % 86_400, b / 1000 % 86_400);
  }

  /** Fields compare as times do, in seconds. */
  lemma FieldsOrder(a: nat, b: nat)
    ensures Lower(Fields(a), Fields(b)) <==> a / 1000 < b / 1000
  {
    LowerSix(Fields(a), Fields(b));
    DatesOrder(a / 1000 / 86_400, b / 1000 / 86_400);
    TimeLower(a, b);
    SecondsOrder(a / 1000, b / 1000);
  }

  lemma SecondsOrder(a: nat, b: nat)
    ensures a < b <==> a / 86_400 < b / 86_400 || (a / 86_400 == b / 86_400 && a % 86_400 < b % 86_400)
  {
    assert a == 86_400 * (a / 86_400) + a % 86_400 && b == 86_400 * (b / 86_400) + b % 86_400;
  }

  lemma FieldsFit(ms: nat)
    requires ms < TEN_THOUSAND
    ensures forall i | 0 <= i < 6 :: Fields(ms)[i].value < Pow10(Fields(ms)[i].width)
  {
    BeforeTenThousand(ms);
    CivilSpans(ms / 1000 / 86_400);
    assert Pow10(2) == 100 && Pow10(4) == 10_000;
  }

  /** Before the year 10000 texts compare exactly as their times do, in seconds. */
  lemma IsoOrder(a: nat, b: nat)
    requires a < TEN_THOUSAND && b < TEN_THOUSAND
    ensures Less(Iso(a), Iso(b)) <==> a / 1000 < b / 1000
  {
    FieldsFit(a);
    FieldsFit(b);
    assert Alike(Fields(a), Fields(b));
    TextOrder(Fields(a), Fields(b));
    FieldsOrder(a, b);
  }

  /** What pruning keeps, which compares a line's text with that of so many days ago: the lines not older, in seconds.
      */
  lemma PruneExact(at: nat, now: nat, days: nat)
    requires at < TEN_THOUSAND && now < TEN_THOUSAND
    ensures var cutoff := if now < days * 86_400_000 then 0 else now - days * 86_400_000;
      !Less(Iso(at), Iso(cutoff)) <==> cutoff / 1000 <= at / 1000
  {
    IsoOrder(at, if now < days * 86_400_000 then 0 else now - days * 86_400_000);
  }

  lemma PadFirst(n: nat, width: nat)
    requires n >= 10 && width > 0
    ensures Pad(n / 10, width - 1) != "" && Pad(n, width) != "" && Pad(n, width)[0] == Pad(n / 10, width - 1)[0]
  {}

  lemma YearFirst()
    ensures Pad(10_000, 4) != "" && Pad(10_000, 4)[0] == '1'
    ensures Pad(9999, 4) != "" && Pad(9999, 4)[0] == '9'
  {
    PadFirst(10_000, 4);
    PadFirst(1000, 3);
    PadFirst(100, 2);
    PadFirst(10, 1);
    PadFirst(9999, 4);
    PadFirst(999, 3);
    PadFirst(99, 2);
    assert Pad(1, 0) == Pad(0, 0) + ['1'] && Pad(9, 1) == Pad(0, 0) + ['9'];
  }

  lemma YearField(ms: nat, days: nat, y: nat, doy: nat)
    requires ms / 1000 / 86_400 == days && days + 719_468 == YearStart(y) + doy && doy < YearDays(y)
    requires FromYear(y, doy).year >= 0
    ensures Fields(ms)[0] == Field(FromYear(y, doy).year, 4, '-')
  {
    CivilFound(days, y, doy);
  }

  lemma YearsThen()
    ensures Fields(TEN_THOUSAND)[0] == Field(10_000, 4, '-') && Fields(TEN_THOUSAND - 1)[0] == Field(9999, 4, '-')
  {
    YearField(TEN_THOUSAND - 1, 2_932_896, 9999, 305);
    YearField(TEN_THOUSAND, 2_932_897, 9999, 306);
  }

  lemma FirstDecides(a: seq<Field>, b: seq<Field>)
    requires a != [] && b != []
    requires var (x, y) := (Pad(a[0].value, a[0].width), Pad(b[0].value, b[0].width)); x != "" && y != "" && x[0] < y[0]
    ensures Less(Text(a), Text(b))
  {}

  /** The text of the year 10000 compares before that of the second before it. */
  lemma PastTenThousand()
    ensures Less(Iso(TEN_THOUSAND), Iso(TEN_THOUSAND - 1))
  {
    YearsThen();
    YearFirst();
    FirstDecides(Fields(TEN_THOUSAND), Fields(TEN_THOUSAND - 1));
  }

  /** Texts compare as times up to a bound exactly if the bound is no later than the year 10000. */
  lemma IsoOrderExact(bound: nat)
    ensures (forall a: nat, b: nat | a < bound && b < bound :: Less(Iso(a), Iso(b)) <==> a / 1000 < b / 1000) <==>
      bound <= TEN_THOUSAND
  {
    if bound <= TEN_THOUSAND {
      forall a: nat, b: nat | a < bound && b < bound ensures Less(Iso(a), Iso(b)) <==> a / 1000 < b / 1000 {
        IsoOrder(a, b);
      }
    } else {
      PastTenThousand();
      assert TEN_THOUSAND < bound && TEN_THOUSAND - 1 < bound && !(TEN_THOUSAND / 1000 < (TEN_THOUSAND - 1) / 1000);
    }
  }

  // Reading a text back.

  ghost predicate Digits(s: string) {
    forall i | 0 <= i < |s| :: '0' <= s[i] <= '9'
  }

  /** The number that digits spell. */
  function Number(s: string): nat
    requires Digits(s)
  {
    if s == "" then 0 else Number(s[..|s| - 1]) * 10 + (s[|s| - 1] - '0') as nat
  }

  /** A stretch of a text spells a number. */
  ghost predicate Spells(t: string, from: nat, to: nat, value: int) {
    from <= to <= |t| && Digits(t[from..to]) && Number(t[from..to]) == value
  }

  lemma {:induction false} PadReads(n: nat, width: nat)
    ensures Digits(Pad(n, width)) && Number(Pad(n, width)) == n && |Pad(n, width)| >= width
    decreases n, width
  {
    if n != 0 || width != 0 {
      PadReads(n / 10, if width > 0 then width - 1 else 0);
      NumberPush(Pad(n / 10, if width > 0 then width - 1 else 0), n);
    }
  }

  lemma NumberPush(rest: string, n: nat)
    requires Digits(rest) && Number(rest) == n / 10
    ensures Digits(rest + [Digit(n % 10)]) && Number(rest + [Digit(n % 10)]) == n
  {
    assert (rest + [Digit(n % 10)])[..|rest|] == rest;
  }

  /** Fields of two digits in a row, each with what follows it. */
  ghost predicate InRow(t: string, from: nat, fields: seq<Field>) {
    && |t| == from + 3 * |fields|
    && forall i | 0 <= i < |fields| ::
         Spells(t, from + 3 * i, from + 3 * i + 2, fields[i].value) && t[from + 3 * i + 2] == fields[i].after
  }

  lemma {:induction false} TextReads(fields: seq<Field>)
    requires forall i | 0 <= i < |fields| :: fields[i].width == 2 && fields[i].value < 100
    ensures InRow(Text(fields), 0, fields)
    decreases |fields|
  {
    if fields != [] {
      TextReads(fields[1..]);
      PadReads(fields[0].value, 2);
      assert Pow10(2) == 100;
      PadSize(fields[0].value, 2);
      RowJoins(Pad(fields[0].value, 2), fields[0], Text(fields[1..]), fields);
    }
  }

  lemma RowJoins(first: string, f: Field, rest: string, fields: seq<Field>)
    requires fields != [] && fields[0] == f && |first| == 2 && Digits(first) && Number(first) == f.value
    requires InRow(rest, 0, fields[1..])
    ensures InRow(first + [f.after] + rest, 0, fields)
  {
    var t := first + [f.after] + rest;
    forall i | 0 <= i < |fields|
      ensures Spells(t, 3 * i, 3 * i + 2, fields[i].value) && t[3 * i + 2] == fields[i].after
    {
      if i == 0 {
        assert t[0..2] == first;
      } else {
        assert fields[1..][i - 1] == fields[i];
        assert Spells(rest, 3 * (i - 1), 3 * (i - 1) + 2, fields[i].value);
        assert t[3 * i..3 * i + 2] == rest[3 * (i - 1)..3 * (i - 1) + 2];
      }
    }
  }

  /** Of a text: at `n` the year ends, and the calendar's date and the time of day follow in two digits each. */
  ghost predicate ReadsAs(t: string, n: nat, date: Date, hour: nat, minute: nat, second: nat) {
    && |t| == n + 16
    && Spells(t, 0, n, date.year)
    && Spells(t, n + 1, n + 3, date.month) && Spells(t, n + 4, n + 6, date.day)
    && Spells(t, n + 7, n + 9, hour) && Spells(t, n + 10, n + 12, minute) && Spells(t, n + 13, n + 15, second)
    && (t[n], t[n + 3], t[n + 6], t[n + 9], t[n + 12], t[n + 15]) == ('-', '-', 'T', ':', ':', 'Z')
  }

  function Row(date: Date, hour: nat, minute: nat, second: nat): seq<Field>
    requires date.month >= 0 && date.day >= 0
  {
    [Field(date.month, 2, '-'), Field(date.day, 2, 'T'), Field(hour, 2, ':'), Field(minute, 2, ':'),
      Field(second, 2, 'Z')]
  }

  lemma RowReads(year: string, rest: string, date: Date, hour: nat, minute: nat, second: nat)
    requires Digits(year) && Number(year) == date.year && date.month >= 0 && date.day >= 0
    requires InRow(rest, 0, Row(date, hour, minute, second))
    ensures ReadsAs(year + ['-'] + rest, |year|, date, hour, minute, second)
  {
    var (before, row) := (year + ['-'], Row(date, hour, minute, second));
    assert (before + rest)[0..|year|] == year;
    SpellsAfter(before, rest, row, 0);
    SpellsAfter(before, rest, row, 1);
    SpellsAfter(before, rest, row, 2);
    SpellsAfter(before, rest, row, 3);
    SpellsAfter(before, rest, row, 4);
  }

  lemma SpellsAfter(before: string, rest: string, row: seq<Field>, i: nat)
    requires InRow(rest, 0, row) && i < |row|
    ensures var (t, at) := (before + rest, |before| + 3 * i);
      Spells(t, at, at + 2, row[i].value) && t[at + 2] == row[i].after
  {
    assert Spells(rest, 3 * i, 3 * i + 2, row[i].value);
    assert (before + rest)[|before| + 3 * i..|before| + 3 * i + 2] == rest[3 * i..3 * i + 2];
  }

  lemma TimeFields(secs: nat, hour: nat, minute: nat, second: nat)
    requires secs == 3600 * hour + 60 * minute + second && secs < 86_400 && minute < 60 && second < 60
    ensures secs / 3600 == hour && secs / 60 % 60 == minute && secs % 60 == second && hour < 24
  {
    assert secs / 60 == 60 * hour + minute;
  }

  lemma FieldsAre(ms: nat, hour: nat, minute: nat, second: nat)
    requires ms / 1000 % 86_400 == 3600 * hour + 60 * minute + second && minute < 60 && second < 60
    ensures var date := DateOf(ms / 1000 / 86_400);
      && 0 <= date.year && 1 <= date.month <= 12 && 1 <= date.day <= 31 && hour < 24
      && Fields(ms) == [Field(date.year, 4, '-')] + Row(date, hour, minute, second)
  {
    CivilIsCalendar(ms / 1000 / 86_400);
    CivilSpans(ms / 1000 / 86_400);
    TimeFields(ms / 1000 % 86_400, hour, minute, second);
  }

  lemma YearDigits(year: nat)
    ensures |Pad(year, 4)| == 4 <==> year < 10_000
  {
    assert Pow10(4) == 10_000;
    if year < 10_000 {
      PadSize(year, 4);
    } else {
      PadReads(year, 4);
      if |Pad(year, 4)| == 4 { NumberBound(Pad(year, 4)); }
    }
  }

  lemma {:induction false} NumberBound(s: string)
    requires Digits(s)
    ensures Number(s) < Pow10(|s|)
    decreases |s|
  {
    if s != "" { NumberBound(s[..|s| - 1]); }
  }

  /** The text of every instant reads back as its date by the calendar and its time of day; its year has four digits
      exactly before the year 10000. */
  lemma ReadsBack(ms: nat, hour: nat, minute: nat, second: nat)
    requires ms / 1000 % 86_400 == 3600 * hour + 60 * minute + second && minute < 60 && second < 60
    ensures exists n :: n >= 4 && ReadsAs(Iso(ms), n, DateOf(ms / 1000 / 86_400), hour, minute, second)
    ensures |Iso(ms)| == 20 <==> ms < TEN_THOUSAND
  {
    var date := DateOf(ms / 1000 / 86_400);
    FieldsAre(ms, hour, minute, second);
    var (f, row) := (Fields(ms), Row(date, hour, minute, second));
    assert f[1..] == row;
    PadReads(date.year, 4);
    TextReads(row);
    RowReads(Pad(date.year, 4), Text(row), date, hour, minute, second);
    assert ReadsAs(Iso(ms), |Pad(date.year, 4)|, date, hour, minute, second);
    YearDigits(date.year);
    assert ms < TEN_THOUSAND <==> date.year < 10_000 by {
      CivilIsCalendar(ms / 1000 / 86_400);
      BeforeTenThousand(ms);
    }
  }
}
