/** The modification-time text of `format_modified`: zero-padded fields joined
    by separators, its date-time shape (section 5.6 of RFC 3339), its inverse,
    and the agreement of text order with time order (section 5.1 of RFC 3339). */
module Timestamp {
  import opened Calendar
  import opened Decimals

  // ---------------------------------------------------------------- source

  /** `{n:0width}`: pads with zeros on the left and never truncates. */
  function Padded(n: nat, width: nat): string {
    var s := Decimal(n);
    if |s| >= width then s else seq(width - |s|, _ => '0') + s
  }

  datatype Moment = Moment(date: Date, hour: int, minute: int, second: int)

  /** Whole seconds since the epoch; a time before it counts as the epoch. */
  function Shown(time: int): int {
    if time < 0 then 0 else time
  }

  function MomentOf(time: int): Moment {
    var seconds := Shown(time);
    var secondsOfDay := seconds % 86400;
    Moment(CivilFromDays(seconds / 86400), secondsOfDay / 3600, secondsOfDay % 3600 / 60, secondsOfDay % 60)
  }

  function Render(m: Moment): string
    requires m.date.year >= 0 && m.date.month >= 0 && m.date.day >= 0
    requires m.hour >= 0 && m.minute >= 0 && m.second >= 0
  {
    Padded(m.date.year, 4) + ("-" + (Padded(m.date.month, 2) + ("-" + (Padded(m.date.day, 2)
    + ("T" + (Padded(m.hour, 2) + (":" + (Padded(m.minute, 2) + (":" + (Padded(m.second, 2) + "Z"))))))))))
  }

  function FormatModified(time: int): string {
    MomentIsProper(time);
    Render(MomentOf(time))
  }

  // --------------------------------------------------------- specification

  /** The last second of the year 9999. */
  const LAST_SECOND := 253402300799

  predicate StringLess(a: string, b: string) {
    |b| > 0 && (|a| == 0 || a[0] < b[0] || (a[0] == b[0] && StringLess(a[1..], b[1..])))
  }

  predicate ProperMoment(m: Moment) {
    ValidDate(m.date) && 0 <= m.hour < 24 && 0 <= m.minute < 60 && 0 <= m.second < 60
  }

  /** The date-time production, with "T" and "Z" and without a fraction. */
  predicate IsDateTime(s: string) {
    && |s| == 20
    && AllDigits(s[0..4]) && AllDigits(s[5..7]) && AllDigits(s[8..10])
    && AllDigits(s[11..13]) && AllDigits(s[14..16]) && AllDigits(s[17..19])
    && s[4] == '-' && s[7] == '-' && s[10] == 'T' && s[13] == ':' && s[16] == ':' && s[19] == 'Z'
    && ProperMoment(ParseMoment(s))
  }

  /** Reads the six fields at their fixed places. */
  function ParseMoment(s: string): Moment
    requires |s| == 20
    requires AllDigits(s[0..4]) && AllDigits(s[5..7]) && AllDigits(s[8..10])
    requires AllDigits(s[11..13]) && AllDigits(s[14..16]) && AllDigits(s[17..19])
  {
    Moment(Date(Number(s[0..4]), Number(s[5..7]), Number(s[8..10])),
           Number(s[11..13]), Number(s[14..16]), Number(s[17..19]))
  }

  function SecondsOf(m: Moment): int {
    DaysFromCivil(m.date) * 86400 + m.hour * 3600 + m.minute * 60 + m.second
  }

  predicate EarlierMoment(a: Moment, b: Moment) {
    Earlier(a.date, b.date) ||
    (a.date == b.date && (a.hour < b.hour ||
    (a.hour == b.hour && (a.minute < b.minute ||
    (a.minute == b.minute && a.second < b.second)))))
  }

  // --------------------------------------------------------- the six fields

  lemma MomentIsProper(time: int)
    ensures ProperMoment(MomentOf(time)) && MomentOf(time).date.year >= 1970
    ensures time >= 0 ==> SecondsOf(MomentOf(time)) == time
  {
    hide CivilFromDays, DaysFromCivil;
    var days := (if time < 0 then 0 else time) / 86400;
    DaysOfCivil(days);
    YearFloor(days);
  }

  lemma YearFloor(days: nat)
    ensures CivilFromDays(days).year >= 1970
  {
    hide CivilFromDays;
    EpochDate();
    CivilIsMonotone(0, days);
    CivilIsMonotone(days, 0);
  }

  lemma YearCeiling(days: int)
    ensures CivilFromDays(days).year <= 9999 <==> days <= 2932896
  {
    hide CivilFromDays;
    LastDay();
    CivilIsMonotone(days, 2932896);
    CivilIsMonotone(2932896, days);
    DaysOfCivil(days);
  }

  lemma LastDay()
    ensures CivilFromDays(2932896) == Date(9999, 12, 31)
  {
    assert DaysFromCivil(Date(9999, 12, 31)) == 2932896;
    CivilOfDays(Date(9999, 12, 31));
  }

  lemma SecondsAreMonotone(a: int, b: int)
    requires a >= 0 && b >= 0
    ensures a < b <==> EarlierMoment(MomentOf(a), MomentOf(b))
  {
    hide CivilFromDays;
    CivilIsMonotone(a / 86400, b / 86400);
    CivilIsMonotone(b / 86400, a / 86400);
    if a / 86400 == b / 86400 {
      TimeOfDayIsMonotone(a % 86400, b % 86400);
    }
  }

  lemma TimeOfDayIsMonotone(a: int, b: int)
    requires 0 <= a < 86400 && 0 <= b < 86400
    ensures a < b <==> (a / 3600 < b / 3600 || (a / 3600 == b / 3600 &&
                       (a % 3600 / 60 < b % 3600 / 60 || (a % 3600 / 60 == b % 3600 / 60 && a % 60 < b % 60))))
  {
    SplitSeconds(a);
    SplitSeconds(b);
    FieldsDecide(a / 3600, a % 3600 / 60, a % 60, b / 3600, b % 3600 / 60, b % 60);
  }

  lemma SplitSeconds(a: int)
    requires 0 <= a < 86400
    ensures a == 3600 * (a / 3600) + 60 * (a % 3600 / 60) + a % 60
    ensures 0 <= a % 3600 / 60 < 60 && 0 <= a % 60 < 60
  {
    var rest := a % 3600;
    assert a == 3600 * (a / 3600) + rest;
    assert rest == 60 * (rest / 60) + rest % 60;
    SameRemainder(60 * (a / 3600), rest);
  }

  lemma SameRemainder(k: int, rest: int)
    ensures (60 * k + rest) % 60 == rest % 60
  {
  }

  lemma FieldsDecide(h: int, m: int, s: int, h': int, m': int, s': int)
    requires 0 <= m < 60 && 0 <= s < 60 && 0 <= m' < 60 && 0 <= s' < 60
    ensures 3600 * h + 60 * m + s < 3600 * h' + 60 * m' + s' <==>
              h < h' || (h == h' && (m < m' || (m == m' && s < s')))
  {
  }

  // ------------------------------------------------------ fixed-width fields

  /** The `width` low decimal digits of `n`. */
  function Fixed(n: nat, width: nat): (s: string)
    ensures |s| == width && AllDigits(s)
  {
    if width == 0 then "" else Fixed(n / 10, width - 1) + [Digit(n % 10)]
  }

  function Pow10(k: nat): nat {
    if k == 0 then 1 else 10 * Pow10(k - 1)
  }

  lemma {:induction false} DecimalIsFixed(n: nat, width: nat)
    requires n < Pow10(width) && width >= 1
    ensures |Decimal(n)| <= width
    ensures Fixed(n, width) == seq(width - |Decimal(n)|, _ => '0') + Decimal(n)
  {
    if n < 10 {
      FixedSmall(n, width);
    } else {
      DecimalIsFixed(n / 10, width - 1);
    }
  }

  lemma {:induction false} FixedSmall(n: nat, width: nat)
    requires n < 10 && width >= 1
    ensures Fixed(n, width) == seq(width - 1, _ => '0') + [Digit(n)]
  {
    if width > 1 {
      FixedSmall(0, width - 1);
      assert Fixed(n, width) == Fixed(0, width - 1) + [Digit(n)];
    }
  }

  lemma PaddedIsFixed(n: nat, width: nat)
    requires n < Pow10(width) && width >= 1
    ensures Padded(n, width) == Fixed(n, width)
  {
    DecimalIsFixed(n, width);
  }

  lemma NumberAppend(s: string, n: int)
    requires AllDigits(s) && 0 <= n < 10
    ensures AllDigits(s + [Digit(n)]) && Number(s + [Digit(n)]) == 10 * Number(s) + n
  {
    assert (s + [Digit(n)])[..|s|] == s;
  }

  lemma {:induction false} NumberOfFixed(n: nat, width: nat)
    requires n < Pow10(width)
    ensures Number(Fixed(n, width)) == n
  {
    if width > 0 {
      NumberOfFixed(n / 10, width - 1);
      NumberAppend(Fixed(n / 10, width - 1), n % 10);
      hide Number;
    }
  }

  lemma {:induction false} DecimalIsLong(n: nat, k: nat)
    requires n >= Pow10(k)
    ensures |Decimal(n)| > k
  {
    if k > 0 {
      DecimalIsLong(n / 10, k - 1);
    }
  }

  // ------------------------------------------------------------- text order

  lemma {:induction false} LessByParts(a: string, b: string, x: string, y: string)
    requires |a| == |b|
    ensures StringLess(a + x, b + y) <==> StringLess(a, b) || (a == b && StringLess(x, y))
  {
    if a == [] {
      assert a + x == x && b + y == y;
    } else {
      assert (a + x)[1..] == a[1..] + x && (b + y)[1..] == b[1..] + y;
      LessByParts(a[1..], b[1..], x, y);
      assert a == [a[0]] + a[1..] && b == [b[0]] + b[1..];
    }
  }

  lemma {:induction false} FixedOrder(m: nat, n: nat, width: nat)
    requires m < Pow10(width) && n < Pow10(width)
    ensures StringLess(Fixed(m, width), Fixed(n, width)) <==> m < n
    ensures Fixed(m, width) == Fixed(n, width) <==> m == n
  {
    if width > 0 {
      FixedOrder(m / 10, n / 10, width - 1);
      LessByParts(Fixed(m / 10, width - 1), Fixed(n / 10, width - 1), [Digit(m % 10)], [Digit(n % 10)]);
      NumberOfFixed(m, width);
      NumberOfFixed(n, width);
      DigitOrder(m % 10, n % 10);
    }
  }

  lemma DigitOrder(m: int, n: int)
    requires 0 <= m < 10 && 0 <= n < 10
    ensures StringLess([Digit(m)], [Digit(n)]) <==> m < n
  {
  }

  // ------------------------------------------------------------ the results

  /** One field and its separator, compared before everything that follows. */
  lemma FieldOrder(m: nat, n: nat, width: nat, sep: string, x: string, y: string)
    requires m < Pow10(width) && n < Pow10(width) && width >= 1
    ensures StringLess(Padded(m, width) + (sep + x), Padded(n, width) + (sep + y)) <==>
            m < n || (m == n && StringLess(x, y))
  {
    PaddedIsFixed(m, width);
    PaddedIsFixed(n, width);
    FixedOrder(m, n, width);
    LessByParts(Fixed(m, width), Fixed(n, width), sep + x, sep + y);
    LessByParts(sep, sep, x, y);
    NotLess(sep);
  }

  lemma {:induction false} NotLess(s: string)
    ensures !StringLess(s, s)
  {
    if s != [] {
      NotLess(s[1..]);
    }
  }

  lemma Powers()
    ensures Pow10(2) == 100 && Pow10(4) == 10000
  {
    assert Pow10(1) == 10;
    assert Pow10(3) == 1000;
  }

  lemma RenderOrder(a: Moment, b: Moment)
    requires ProperMoment(a) && 0 <= a.date.year <= 9999
    requires ProperMoment(b) && 0 <= b.date.year <= 9999
    ensures StringLess(Render(a), Render(b)) <==> EarlierMoment(a, b)
  {
    hide Padded, StringLess, Pow10;
    Powers();
    var sa, sb := Padded(a.second, 2) + "Z", Padded(b.second, 2) + "Z";
    assert sa == Padded(a.second, 2) + ("Z" + "") && sb == Padded(b.second, 2) + ("Z" + "");
    FieldOrder(a.second, b.second, 2, "Z", "", "");
    NotLess("");
    var ma, mb := Padded(a.minute, 2) + (":" + sa), Padded(b.minute, 2) + (":" + sb);
    FieldOrder(a.minute, b.minute, 2, ":", sa, sb);
    var ha, hb := Padded(a.hour, 2) + (":" + ma), Padded(b.hour, 2) + (":" + mb);
    FieldOrder(a.hour, b.hour, 2, ":", ma, mb);
    var da, db := Padded(a.date.day, 2) + ("T" + ha), Padded(b.date.day, 2) + ("T" + hb);
    FieldOrder(a.date.day, b.date.day, 2, "T", ha, hb);
    var na, nb := Padded(a.date.month, 2) + ("-" + da), Padded(b.date.month, 2) + ("-" + db);
    FieldOrder(a.date.month, b.date.month, 2, "-", da, db);
    FieldOrder(a.date.year, b.date.year, 4, "-", na, nb);
  }

  lemma FieldAt(s: string, k: nat, part: string, rest: string)
    requires k <= |s| && s[k..] == part + rest
    ensures |s| == k + |part| + |rest|
    ensures s[k..k + |part|] == part && s[k + |part|..] == rest
    ensures part != [] ==> s[k] == part[0]
  {
    var t := s[k..];
    assert t[..|part|] == part && t[|part|..] == rest;
    assert s[k..k + |part|] == t[..|part|] && s[k + |part|..] == t[|part|..];
    assert part != [] ==> s[k] == t[0];
  }

  lemma RenderFields(m: Moment)
    requires ProperMoment(m) && 0 <= m.date.year <= 9999
    ensures var s := Render(m);
            && |s| == 20
            && s[0..4] == Fixed(m.date.year, 4) && s[5..7] == Fixed(m.date.month, 2)
            && s[8..10] == Fixed(m.date.day, 2) && s[11..13] == Fixed(m.hour, 2)
            && s[14..16] == Fixed(m.minute, 2) && s[17..19] == Fixed(m.second, 2)
            && s[4] == '-' && s[7] == '-' && s[10] == 'T' && s[13] == ':' && s[16] == ':' && s[19] == 'Z'
  {
    hide Padded, Pow10, Fixed;
    Powers();
    var s := Render(m);
    PaddedIsFixed(m.date.year, 4);
    PaddedIsFixed(m.date.month, 2);
    PaddedIsFixed(m.date.day, 2);
    PaddedIsFixed(m.hour, 2);
    PaddedIsFixed(m.minute, 2);
    PaddedIsFixed(m.second, 2);
    var s5 := Fixed(m.second, 2) + "Z";
    var s4 := Fixed(m.minute, 2) + (":" + s5);
    var s3 := Fixed(m.hour, 2) + (":" + s4);
    var s2 := Fixed(m.date.day, 2) + ("T" + s3);
    var s1 := Fixed(m.date.month, 2) + ("-" + s2);
    assert s[0..] == s;
    FieldAt(s, 0, Fixed(m.date.year, 4), "-" + s1);
    FieldAt(s, 4, "-", s1);
    FieldAt(s, 5, Fixed(m.date.month, 2), "-" + s2);
    FieldAt(s, 7, "-", s2);
    FieldAt(s, 8, Fixed(m.date.day, 2), "T" + s3);
    FieldAt(s, 10, "T", s3);
    FieldAt(s, 11, Fixed(m.hour, 2), ":" + s4);
    FieldAt(s, 13, ":", s4);
    FieldAt(s, 14, Fixed(m.minute, 2), ":" + s5);
    FieldAt(s, 16, ":", s5);
    FieldAt(s, 17, Fixed(m.second, 2), "Z");
  }

  lemma ParseOfRender(m: Moment)
    requires ProperMoment(m) && 0 <= m.date.year <= 9999
    ensures IsDateTime(Render(m)) && ParseMoment(Render(m)) == m
  {
    hide Render, Pow10, Fixed;
    Powers();
    RenderFields(m);
    NumberOfFixed(m.date.year, 4);
    NumberOfFixed(m.date.month, 2);
    NumberOfFixed(m.date.day, 2);
    NumberOfFixed(m.hour, 2);
    NumberOfFixed(m.minute, 2);
    NumberOfFixed(m.second, 2);
  }

  lemma LongYear(m: Moment)
    requires ProperMoment(m) && m.date.year > 9999
    ensures |Render(m)| > 20
  {
    hide Pow10, Decimal, DaysInMonth;
    Powers();
    DecimalIsLong(m.date.year, 4);
  }

  lemma ShownText(time: int)
    ensures FormatModified(time) == FormatModified(Shown(time))
  {
    hide Render, CivilFromDays, ProperMoment;
  }

  /** The text has the date-time shape exactly when the year has at most four digits. It
      then reads back as the second it was made from exactly for times since the epoch,
      and as the epoch for all others. */
  lemma ShapeAndInverse(time: int)
    ensures IsDateTime(FormatModified(time)) <==> time <= LAST_SECOND
    ensures time <= LAST_SECOND ==> SecondsOf(ParseMoment(FormatModified(time))) == Shown(time)
    ensures time <= LAST_SECOND ==> (SecondsOf(ParseMoment(FormatModified(time))) == time <==> time >= 0)
  {
    hide Render, SecondsOf, ProperMoment, CivilFromDays;
    ShownText(time);
    var s := Shown(time);
    MomentIsProper(s);
    YearCeiling(s / 86400);
    if time <= LAST_SECOND {
      ParseOfRender(MomentOf(s));
    } else {
      LongYear(MomentOf(s));
    }
  }

  lemma OrderSinceEpoch(a: int, b: int)
    requires 0 <= a <= LAST_SECOND && 0 <= b <= LAST_SECOND
    ensures StringLess(FormatModified(a), FormatModified(b)) <==> a < b
  {
    hide Render, ProperMoment, CivilFromDays, EarlierMoment, StringLess;
    MomentIsProper(a);
    MomentIsProper(b);
    YearCeiling(a / 86400);
    YearCeiling(b / 86400);
    RenderOrder(MomentOf(a), MomentOf(b));
    SecondsAreMonotone(a, b);
  }

  /** Up to the year 9999, text order is time order between any two times of which the
      later is behind the epoch, and two times have one text exactly when they are equal
      or neither is behind the epoch. */
  lemma OrderPreserved(a: int, b: int)
    requires a <= LAST_SECOND && b <= LAST_SECOND
    ensures StringLess(FormatModified(a), FormatModified(b)) <==> a < b && 0 < b
    ensures FormatModified(a) == FormatModified(b) <==> a == b || (a <= 0 && b <= 0)
  {
    hide FormatModified, StringLess;
    ShownText(a);
    ShownText(b);
    OrderSinceEpoch(Shown(a), Shown(b));
    ShapeAndInverse(a);
    ShapeAndInverse(b);
  }

  /** Over a span of times that starts before the year 10000, text order is time order
      throughout exactly when the span starts at or behind the epoch and ends before the
      year 10000. */
  lemma OrderOverSpan(first: int, last: int)
    requires first < last && first <= LAST_SECOND
    ensures (forall a, b :: first <= a <= last && first <= b <= last ==>
               (StringLess(FormatModified(a), FormatModified(b)) <==> a < b))
            <==> 0 <= first && last <= LAST_SECOND
  {
    hide FormatModified, StringLess;
    if last > LAST_SECOND {
      OrderBreaksAtYear10000();
      assert first <= LAST_SECOND + 1 <= last;
    } else if first < 0 {
      OrderPreserved(first, first + 1);
    } else {
      forall a, b | first <= a <= last && first <= b <= last
        ensures StringLess(FormatModified(a), FormatModified(b)) <==> a < b
      {
        OrderPreserved(a, b);
      }
    }
  }

  lemma FirstDigits()
    ensures Padded(10000, 4) != [] && Padded(10000, 4)[0] == '1'
    ensures Padded(9999, 4) != [] && Padded(9999, 4)[0] == '9'
  {
    assert Decimal(10)[0] == '1' && Decimal(100)[0] == '1';
    assert Decimal(1000)[0] == '1';
    assert Decimal(99)[0] == '9' && Decimal(999)[0] == '9';
    assert |Decimal(100)| == 3 && |Decimal(999)| == 3;
    assert |Decimal(10000)| == 5 && |Decimal(9999)| == 4;
  }

  lemma RenderStart(m: Moment)
    requires ProperMoment(m) && m.date.year >= 0
    requires Padded(m.date.year, 4) != []
    ensures Render(m) != [] && Render(m)[0] == Padded(m.date.year, 4)[0]
  {
    hide Padded;
    FieldAt(Render(m), 0, Padded(m.date.year, 4), Render(m)[|Padded(m.date.year, 4)|..]);
  }

  /** The bound is sharp: one second later the text sorts first. */
  lemma OrderBreaksAtYear10000()
    ensures StringLess(FormatModified(LAST_SECOND + 1), FormatModified(LAST_SECOND))
  {
    hide CivilFromDays, ProperMoment, Padded, Decimal;
    var a, b := MomentOf(LAST_SECOND + 1), MomentOf(LAST_SECOND);
    MomentIsProper(LAST_SECOND);
    MomentIsProper(LAST_SECOND + 1);
    assert (LAST_SECOND + 1) / 86400 == 2932897 && LAST_SECOND / 86400 == 2932896;
    LastDay();
    CivilIsGregorian(2932896);
    assert a.date.year == 10000 && b.date.year == 9999;
    FirstDigits();
    RenderStart(a);
    RenderStart(b);
    hide Render;
  }

  lemma EpochFields()
    ensures Padded(1970, 4) == "1970" && Padded(0, 2) == "00" && Padded(1, 2) == "01"
  {
    assert Decimal(197) == "197" by {
      assert Decimal(19) == "19";
    }
  }

  lemma EpochText()
    ensures Render(Moment(Date(1970, 1, 1), 0, 0, 0)) == "1970-01-01T00:00:00Z"
  {
    EpochFields();
    hide Padded;
    assert "00" + "Z" == "00Z";
    assert "00" + (":" + "00Z") == "00:00Z";
    assert "00" + (":" + "00:00Z") == "00:00:00Z";
    assert "01" + ("T" + "00:00:00Z") == "01T00:00:00Z";
    assert "01" + ("-" + "01T00:00:00Z") == "01-01T00:00:00Z";
  }

  /** Exactly the times up to the epoch are shown as the epoch. */
  lemma BeforeEpoch(time: int)
    ensures FormatModified(time) == "1970-01-01T00:00:00Z" <==> time <= 0
  {
    EpochShown();
    hide FormatModified, IsDateTime;
    if time <= LAST_SECOND {
      OrderPreserved(time, 0);
    } else {
      ShapeAndInverse(time);
      ShapeAndInverse(0);
    }
  }

  lemma EpochShown()
    ensures FormatModified(0) == "1970-01-01T00:00:00Z"
  {
    hide CivilFromDays, ProperMoment, Render;
    EpochDate();
    EpochText();
  }
}
