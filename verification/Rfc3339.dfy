/**
 * The text form of a timestamp, `2006-01-02T15:04:05Z` (section 5.6 of RFC 3339), and why comparing the texts
 * compares the instants (section 5.1).  Seconds are counted from 0000-01-01T00:00:00Z in the proleptic
 * Gregorian calendar; the texts are those of UTC instants with a four-digit year.
 */
module Rfc3339 {
  import opened Wrappers

  // ------------------------------------------------------------------------------------------
  // The calendar
  // ------------------------------------------------------------------------------------------

  predicate Leap(year: nat) { year % 4 == 0 && (year % 100 != 0 || year % 400 == 0) }

  function YearLength(year: nat): nat { if Leap(year) then 366 else 365 }

  function MonthLength(year: nat, month: nat): nat
    requires 1 <= month <= 12
  {
    if month == 2 then (if Leap(year) then 29 else 28)
    else if month == 4 || month == 6 || month == 9 || month == 11 then 30 else 31
  }

  function DaysBeforeYear(year: nat): nat {
    if year == 0 then 0 else DaysBeforeYear(year - 1) + YearLength(year - 1)
  }

  function DaysBeforeMonth(year: nat, month: nat): nat
    requires 1 <= month <= 13
  {
    if month == 1 then 0 else DaysBeforeMonth(year, month - 1) + MonthLength(year, month - 1)
  }

  datatype Civil = Civil(year: nat, month: nat, day: nat, hour: nat, minute: nat, second: nat)

  predicate Valid(c: Civil) {
    && c.year < 10000 && 1 <= c.month <= 12 && 1 <= c.day <= MonthLength(c.year, c.month)
    && c.hour < 24 && c.minute < 60 && c.second < 60
  }

  function DayNumber(c: Civil): nat
    requires Valid(c)
  {
    DaysBeforeYear(c.year) + DaysBeforeMonth(c.year, c.month) + c.day - 1
  }

  function Seconds(c: Civil): nat
    requires Valid(c)
  {
    DayNumber(c) * 86400 + c.hour * 3600 + c.minute * 60 + c.second
  }

  function FindYear(day: nat, year: nat): (r: nat)
    requires DaysBeforeYear(year) <= day
    ensures DaysBeforeYear(r) <= day < DaysBeforeYear(r + 1)
    decreases day - DaysBeforeYear(year)
  {
    if day < DaysBeforeYear(year + 1) then year else FindYear(day, year + 1)
  }

  function YearOf(seconds: nat): nat { FindYear(seconds / 86400, 0) }

  predicate FourDigitYear(seconds: int) { 0 <= seconds && YearOf(seconds) < 10000 }

  lemma {:induction false} YearsGrow(a: nat, b: nat)
    requires a <= b
    ensures DaysBeforeYear(a) <= DaysBeforeYear(b)
  {
    if a < b { YearsGrow(a, b - 1); }
  }

  lemma {:induction false} MonthsGrow(year: nat, a: nat, b: nat)
    requires 1 <= a <= b <= 13
    ensures DaysBeforeMonth(year, a) <= DaysBeforeMonth(year, b)
  {
    if a < b { MonthsGrow(year, a, b - 1); }
  }

  lemma MonthsFillYear(year: nat)
    ensures DaysBeforeMonth(year, 13) == YearLength(year)
  {
    assert DaysBeforeMonth(year, 2) == 31;
    assert DaysBeforeMonth(year, 4) == 62 + MonthLength(year, 2) by {
      assert DaysBeforeMonth(year, 3) == 31 + MonthLength(year, 2);
    }
    assert DaysBeforeMonth(year, 6) == 123 + MonthLength(year, 2) by {
      assert DaysBeforeMonth(year, 5) == 92 + MonthLength(year, 2);
    }
    assert DaysBeforeMonth(year, 8) == 184 + MonthLength(year, 2) by {
      assert DaysBeforeMonth(year, 7) == 153 + MonthLength(year, 2);
    }
    assert DaysBeforeMonth(year, 10) == 245 + MonthLength(year, 2) by {
      assert DaysBeforeMonth(year, 9) == 215 + MonthLength(year, 2);
    }
    assert DaysBeforeMonth(year, 12) == 306 + MonthLength(year, 2) by {
      assert DaysBeforeMonth(year, 11) == 276 + MonthLength(year, 2);
    }
  }

  /** The Gregorian rule in one formula: every fourth year is a leap year, but of the centuries only every fourth. */
  lemma {:induction false} YearsAddUp(year: nat)
    ensures DaysBeforeYear(year) == 365 * year + (year + 3) / 4 - (year + 99) / 100 + (year + 399) / 400
  {
    if year > 0 {
      YearsAddUp(year - 1);
      NextYear(year - 1);
    }
  }

  lemma NextYear(year: nat)
    ensures YearLength(year) == 365 + ((year + 4) / 4 - (year + 3) / 4)
                                - ((year + 100) / 100 - (year + 99) / 100) + ((year + 400) / 400 - (year + 399) / 400)
  {
    NextMultiple(year, 4);
    NextMultiple(year, 100);
    NextMultiple(year, 400);
    LeapCounts(year);
  }

  /** A multiple of 400 is one of 100, and that is one of 4. */
  lemma LeapCounts(year: nat)
    ensures YearLength(year) == 365 + (if year % 4 == 0 then 1 else 0)
                                - (if year % 100 == 0 then 1 else 0) + (if year % 400 == 0 then 1 else 0)
  {
    MultiplesNest(year);
  }

  lemma MultiplesNest(year: nat)
    ensures year % 100 == 0 ==> year % 4 == 0
    ensures year % 400 == 0 ==> year % 100 == 0
  {
    Hundreds(year / 100);
    FourHundreds(year / 400);
  }

  lemma Hundreds(n: nat)
    ensures 100 * n % 4 == 0
  {
  }

  lemma FourHundreds(n: nat)
    ensures 400 * n % 100 == 0
  {
  }

  /** One more multiple of `n` is reached with `k` if it is one. */
  lemma NextMultiple(k: nat, n: nat)
    requires n == 4 || n == 100 || n == 400
    ensures (k + n) / n - (k + n - 1) / n == if k % n == 0 then 1 else 0
  {
  }

  /** The months' lengths as a table. */
  lemma MonthTable(year: nat, month: nat)
    requires 1 <= month <= 12
    ensures MonthLength(year, month)
         == [31, if year % 4 == 0 && (year % 100 != 0 || year % 400 == 0) then 29 else 28,
             31, 30, 31, 30, 31, 31, 30, 31, 30, 31][month - 1]
  {
  }

  function FindMonth(year: nat, day: nat, month: nat): (r: nat)
    requires 1 <= month <= 12 && DaysBeforeMonth(year, month) <= day < DaysBeforeMonth(year, 13)
    ensures 1 <= r <= 12 && DaysBeforeMonth(year, r) <= day < DaysBeforeMonth(year, r + 1)
    decreases 13 - month
  {
    if day < DaysBeforeMonth(year, month + 1) then month else FindMonth(year, day, month + 1)
  }

  lemma TimeAddsUp(rest: nat)
    requires rest < 86400
    ensures rest == rest / 3600 * 3600 + rest / 60 % 60 * 60 + rest % 60
    ensures rest / 3600 < 24 && rest / 60 % 60 < 60 && rest % 60 < 60
  {
    assert rest / 3600 == rest / 60 / 60;
  }

  datatype Date = Date(year: nat, month: nat, day: nat)

  /** The date of a day. */
  function DateOf(day: nat): (d: Date)
    ensures d.year == FindYear(day, 0) && 1 <= d.month <= 12 && 1 <= d.day <= MonthLength(d.year, d.month)
    ensures DaysBeforeYear(d.year) + DaysBeforeMonth(d.year, d.month) + d.day - 1 == day
  {
    var year := FindYear(day, 0);
    var dayOfYear := day - DaysBeforeYear(year);
    MonthsFillYear(year);
    var month := FindMonth(year, dayOfYear, 1);
    Date(year, month, dayOfYear - DaysBeforeMonth(year, month) + 1)
  }

  /** The date and time of an instant. */
  function ToCivil(seconds: int): (c: Civil)
    requires FourDigitYear(seconds)
    ensures Valid(c) && Seconds(c) == seconds
  {
    var date, rest := DateOf(seconds / 86400), seconds % 86400;
    TimeAddsUp(rest);
    Civil(date.year, date.month, date.day, rest / 3600, rest / 60 % 60, rest % 60)
  }

  /** The time of day. */
  lemma ClockMeans(seconds: int)
    requires FourDigitYear(seconds)
    ensures var c := ToCivil(seconds);
            c.hour * 3_600 + c.minute * 60 + c.second == seconds % 86_400 && c.minute < 60 && c.second < 60
  {
  }

  lemma TenThousandYears()
    ensures DaysBeforeYear(10000) == 3_652_425
  {
    YearsAddUp(10000);
  }

  /** The years 0000 to 9999 have so many seconds. */
  lemma FourDigitYears(seconds: int)
    ensures FourDigitYear(seconds) <==> 0 <= seconds < 315_569_520_000
  {
    if seconds >= 0 {
      var year, day := YearOf(seconds), seconds / 86_400;
      TenThousandYears();
      assert seconds < 315_569_520_000 <==> day < 3_652_425;
      if year < 10000 { YearsGrow(year + 1, 10000); } else { YearsGrow(10000, year); }
    }
  }

  /** Date first, then time: the order of the fields as they are written. */
  predicate Earlier(a: Civil, b: Civil) {
    a.year < b.year || (a.year == b.year &&
    (a.month < b.month || (a.month == b.month &&
    (a.day < b.day || (a.day == b.day &&
    (a.hour < b.hour || (a.hour == b.hour &&
    (a.minute < b.minute || (a.minute == b.minute && a.second < b.second)))))))))
  }

  lemma EarlierDay(a: Civil, b: Civil)
    requires Valid(a) && Valid(b)
    requires a.year < b.year || (a.year == b.year && (a.month < b.month || (a.month == b.month && a.day < b.day)))
    ensures DayNumber(a) < DayNumber(b)
  {
    if a.year < b.year {
      MonthsGrow(a.year, a.month + 1, 13);
      MonthsFillYear(a.year);
      YearsGrow(a.year + 1, b.year);
    } else if a.month < b.month {
      MonthsGrow(a.year, a.month + 1, b.month);
    }
  }

  lemma EarlierIsLess(a: Civil, b: Civil)
    requires Valid(a) && Valid(b) && Earlier(a, b)
    ensures Seconds(a) < Seconds(b)
  {
    if a.year == b.year && a.month == b.month && a.day == b.day {
    } else {
      EarlierDay(a, b);
    }
  }

  // ------------------------------------------------------------------------------------------
  // The text
  // ------------------------------------------------------------------------------------------

  const DIGITS := "0123456789"

  function Two(n: nat): (s: string)
    requires n < 100
    ensures |s| == 2
  {
    [DIGITS[n / 10], DIGITS[n % 10]]
  }

  function Four(n: nat): (s: string)
    requires n < 10000
    ensures |s| == 4
  {
    Two(n / 100) + Two(n % 100)
  }

  function TimeText(c: Civil): (s: string)
    requires Valid(c)
    ensures |s| == 9
  {
    Two(c.hour) + (":" + (Two(c.minute) + (":" + (Two(c.second) + "Z"))))
  }

  function Text(c: Civil): (s: string)
    requires Valid(c)
    ensures |s| == 20
  {
    Four(c.year) + ("-" + (Two(c.month) + ("-" + (Two(c.day) + ("T" + TimeText(c))))))
  }

  /** `t.Format(time.RFC3339)` of a UTC instant. */
  function Format(seconds: int): string
    requires FourDigitYear(seconds)
  {
    Text(ToCivil(seconds))
  }

  /** The comparison SQLite's BINARY collation makes of two texts. */
  predicate TextLess(a: string, b: string) {
    if b == [] then false
    else if a == [] then true
    else a[0] < b[0] || (a[0] == b[0] && TextLess(a[1..], b[1..]))
  }

  lemma {:induction false} TextLessPrefix(u: string, v: string, x: string, y: string)
    requires |u| == |v|
    ensures TextLess(u, v) ==> TextLess(u + x, v + y)
    ensures u == v ==> (TextLess(u + x, v + y) <==> TextLess(x, y))
  {
    if u == [] {
      assert u + x == x && v + y == y;
    } else {
      assert (u + x)[1..] == u[1..] + x && (v + y)[1..] == v[1..] + y;
      TextLessPrefix(u[1..], v[1..], x, y);
      if u == v { assert u[1..] == v[1..]; }
    }
  }

  lemma {:induction false} TextLessAsymmetric(a: string, b: string)
    ensures TextLess(a, b) ==> !TextLess(b, a) && a != b
  {
    if a != [] && b != [] {
      TextLessAsymmetric(a[1..], b[1..]);
    }
  }

  lemma DigitsOrdered(a: nat, b: nat)
    requires a < b < 10
    ensures DIGITS[a] < DIGITS[b]
  {
  }

  lemma TwoOrdered(a: nat, b: nat)
    requires a < b < 100
    ensures TextLess(Two(a), Two(b))
  {
    if a / 10 < b / 10 {
      DigitsOrdered(a / 10, b / 10);
    } else {
      assert a / 10 == b / 10;
      DigitsOrdered(a % 10, b % 10);
      assert Two(a)[1..] == [DIGITS[a % 10]] && Two(b)[1..] == [DIGITS[b % 10]];
    }
  }

  lemma FourOrdered(a: nat, b: nat)
    requires a < b < 10000
    ensures TextLess(Four(a), Four(b))
  {
    var p, q, x, y := a / 100, b / 100, a % 100, b % 100;
    assert p < q || (p == q && x < y);
    TextLessPrefix(Two(p), Two(q), Two(x), Two(y));
    if p < q { TwoOrdered(p, q); } else { TwoOrdered(x, y); }
  }

  /** A two-digit field followed by a separator decides unless it is equal on both sides. */
  lemma FieldDecides(m: nat, n: nat, sep: string, x: string, y: string)
    requires m < 100 && n < 100
    ensures m < n ==> TextLess(Two(m) + (sep + x), Two(n) + (sep + y))
    ensures m == n ==> (TextLess(Two(m) + (sep + x), Two(n) + (sep + y)) <==> TextLess(x, y))
  {
    TextLessPrefix(Two(m), Two(n), sep + x, sep + y);
    TextLessPrefix(sep, sep, x, y);
    if m < n { TwoOrdered(m, n); }
  }

  lemma TimeTextOrdered(a: Civil, b: Civil)
    requires Valid(a) && Valid(b)
    requires a.hour < b.hour
          || (a.hour == b.hour && (a.minute < b.minute || (a.minute == b.minute && a.second < b.second)))
    ensures TextLess(TimeText(a), TimeText(b))
  {
    var sa, sb := Two(a.second) + "Z", Two(b.second) + "Z";
    var ma, mb := Two(a.minute) + (":" + sa), Two(b.minute) + (":" + sb);
    FieldDecides(a.hour, b.hour, ":", ma, mb);
    FieldDecides(a.minute, b.minute, ":", sa, sb);
    if a.second < b.second {
      TextLessPrefix(Two(a.second), Two(b.second), "Z", "Z");
      TwoOrdered(a.second, b.second);
    }
  }

  lemma TextOrdered(a: Civil, b: Civil)
    requires Valid(a) && Valid(b) && Earlier(a, b)
    ensures TextLess(Text(a), Text(b))
  {
    var ta, tb := TimeText(a), TimeText(b);
    var da, db := Two(a.day) + ("T" + ta), Two(b.day) + ("T" + tb);
    var ma, mb := Two(a.month) + ("-" + da), Two(b.month) + ("-" + db);
    FieldDecides(a.day, b.day, "T", ta, tb);
    FieldDecides(a.month, b.month, "-", da, db);
    TextLessPrefix(Four(a.year), Four(b.year), "-" + ma, "-" + mb);
    TextLessPrefix("-", "-", ma, mb);
    if a.year < b.year {
      FourOrdered(a.year, b.year);
    } else if a.month == b.month && a.day == b.day {
      TimeTextOrdered(a, b);
    }
  }

  /** Comparing two texts compares the instants, to the second. */
  lemma FormatOrder(a: int, b: int)
    requires FourDigitYear(a) && FourDigitYear(b)
    ensures TextLess(Format(a), Format(b)) <==> a < b
    ensures Format(a) == Format(b) <==> a == b
  {
    var ca, cb := ToCivil(a), ToCivil(b);
    TextLessAsymmetric(Format(a), Format(b));
    TextLessAsymmetric(Format(b), Format(a));
    if Earlier(ca, cb) {
      EarlierIsLess(ca, cb);
      TextOrdered(ca, cb);
    } else if Earlier(cb, ca) {
      EarlierIsLess(cb, ca);
      TextOrdered(cb, ca);
    } else {
      assert ca == cb;
    }
  }

  lemma DayInYear(c: Civil)
    requires Valid(c)
    ensures DaysBeforeYear(c.year) <= DayNumber(c) < DaysBeforeYear(c.year + 1)
  {
    MonthsGrow(c.year, c.month + 1, 13);
    MonthsFillYear(c.year);
  }

  /** Every date and time of a four-digit year is the one of its instant. */
  lemma CivilBack(c: Civil)
    requires Valid(c)
    ensures FourDigitYear(Seconds(c)) && ToCivil(Seconds(c)) == c
  {
    DayInYear(c);
    var day := DayNumber(c);
    assert Seconds(c) / 86400 == day;
    var year := YearOf(Seconds(c));
    if year < c.year { YearsGrow(year + 1, c.year); } else if c.year < year { YearsGrow(c.year + 1, year); }
    var d := ToCivil(Seconds(c));
    if Earlier(c, d) { EarlierIsLess(c, d); } else if Earlier(d, c) { EarlierIsLess(d, c); }
  }

  lemma MonthStarts(year: nat)
    ensures DaysBeforeMonth(year, 1) == 0 && DaysBeforeMonth(year, 2) == 31
    ensures DaysBeforeMonth(year, 3) == if Leap(year) then 60 else 59
  {
  }

  lemma TwoText(n: nat, s: string)
    requires n < 100 && |s| == 2 && s[0] == DIGITS[n / 10] && s[1] == DIGITS[n % 10]
    ensures Two(n) == s
  {
  }

  lemma FormatOf(c: Civil, seconds: int, text: string)
    requires Valid(c) && Seconds(c) == seconds && Text(c) == text
    ensures FourDigitYear(seconds) && Format(seconds) == text
  {
    CivilBack(c);
  }

  lemma SecondsOf(c: Civil, days: nat)
    requires Valid(c) && DaysBeforeYear(c.year) + DaysBeforeMonth(c.year, c.month) + c.day - 1 == days
    requires c.hour == 0 && c.minute == 0 && c.second == 0
    ensures Seconds(c) == days * 86400
  {
  }

  /** The Unix epoch. */
  lemma Epoch(seconds: int)
    requires seconds == 62_167_219_200
    ensures FourDigitYear(seconds) && Format(seconds) == "1970-01-01T00:00:00Z"
  {
    var year: nat :| year == 1970;
    var c := Civil(year, 1, 1, 0, 0, 0);
    YearsAddUp(year);
    SecondsOf(c, 719_528);
    EpochText();
    FormatOf(c, seconds, "1970-01-01T00:00:00Z");
  }

  /** The first of March in a leap year. */
  lemma LeapMarch(seconds: int)
    requires seconds == 63_876_470_400
    ensures FourDigitYear(seconds) && Format(seconds) == "2024-03-01T00:00:00Z"
  {
    var year: nat :| year == 2024;
    var c := Civil(year, 3, 1, 0, 0, 0);
    YearsAddUp(year);
    MonthStarts(year);
    SecondsOf(c, 739_311);
    MarchText();
    FormatOf(c, seconds, "2024-03-01T00:00:00Z");
  }

  lemma EpochText()
    ensures Text(Civil(1970, 1, 1, 0, 0, 0)) == "1970-01-01T00:00:00Z"
  {
    TwoText(19, "19");
    TwoText(70, "70");
    TwoText(1, "01");
    TwoText(0, "00");
  }

  lemma MarchText()
    ensures Text(Civil(2024, 3, 1, 0, 0, 0)) == "2024-03-01T00:00:00Z"
  {
    TwoText(20, "20");
    TwoText(24, "24");
    TwoText(3, "03");
    TwoText(1, "01");
    TwoText(0, "00");
  }

  // ------------------------------------------------------------------------------------------
  // Reading it back
  // ------------------------------------------------------------------------------------------

  predicate IsDigit(c: char) { '0' <= c <= '9' }

  function DigitValue(c: char): nat
    requires IsDigit(c)
  {
    (c as int) - ('0' as int)
  }

  predicate TwoDigits(s: string, i: nat) { i + 1 < |s| && IsDigit(s[i]) && IsDigit(s[i + 1]) }

  function TwoAt(s: string, i: nat): nat
    requires TwoDigits(s, i)
  {
    10 * DigitValue(s[i]) + DigitValue(s[i + 1])
  }

  predicate HasShape(s: string) {
    && |s| == 20
    && TwoDigits(s, 0) && TwoDigits(s, 2) && s[4] == '-' && TwoDigits(s, 5) && s[7] == '-' && TwoDigits(s, 8)
    && s[10] == 'T' && TwoDigits(s, 11) && s[13] == ':' && TwoDigits(s, 14) && s[16] == ':' && TwoDigits(s, 17)
    && s[19] == 'Z'
  }

  /** `time.Parse(time.RFC3339, s)` for the one shape `Format` writes. */
  function Parse(s: string): Option<nat> {
    if !HasShape(s) then None
    else
      var year := 100 * TwoAt(s, 0) + TwoAt(s, 2);
      var c := Civil(year, TwoAt(s, 5), TwoAt(s, 8), TwoAt(s, 11), TwoAt(s, 14), TwoAt(s, 17));
      if Valid(c) then Some(Seconds(c)) else None
  }

  lemma DigitReads(d: nat)
    requires d < 10
    ensures IsDigit(DIGITS[d]) && DigitValue(DIGITS[d]) == d
  {
  }

  /** The two digits of `n` are at position `i`. */
  predicate Holds(s: string, i: nat, n: nat)
    requires n < 100
  {
    i + 2 <= |s| && s[i..i + 2] == Two(n)
  }

  lemma TwoReadsBack(n: nat, s: string, i: nat)
    requires n < 100 && Holds(s, i, n)
    ensures TwoDigits(s, i) && TwoAt(s, i) == n
  {
    assert s[i] == Two(n)[0] by { assert s[i..i + 2][0] == s[i]; }
    assert s[i + 1] == Two(n)[1] by { assert s[i..i + 2][1] == s[i + 1]; }
    DigitReads(n / 10);
    DigitReads(n % 10);
  }

  lemma TimeTextParts(c: Civil)
    requires Valid(c)
    ensures var s := TimeText(c);
            && Holds(s, 0, c.hour) && Holds(s, 3, c.minute) && Holds(s, 6, c.second)
            && s[2] == ':' && s[5] == ':' && s[8] == 'Z'
  {
  }

  lemma TextParts(c: Civil)
    requires Valid(c)
    ensures var s := Text(c);
            && Holds(s, 0, c.year / 100) && Holds(s, 2, c.year % 100) && Holds(s, 5, c.month) && Holds(s, 8, c.day)
            && s[4] == '-' && s[7] == '-' && s[10] == 'T' && s[11..] == TimeText(c)
  {
  }

  lemma HoldsLater(s: string, k: nat, i: nat, n: nat)
    requires n < 100 && k <= |s| && Holds(s[k..], i, n)
    ensures Holds(s, k + i, n)
  {
    assert s[k..][i..i + 2] == s[k + i..k + i + 2];
  }

  lemma TextReads(c: Civil, s: string)
    requires Valid(c) && s == Text(c)
    ensures HasShape(s)
    ensures TwoAt(s, 0) == c.year / 100 && TwoAt(s, 2) == c.year % 100 && TwoAt(s, 5) == c.month && TwoAt(s, 8) == c.day
    ensures TwoAt(s, 11) == c.hour && TwoAt(s, 14) == c.minute && TwoAt(s, 17) == c.second
  {
    TextParts(c);
    TimeTextParts(c);
    HoldsLater(s, 11, 0, c.hour);
    HoldsLater(s, 11, 3, c.minute);
    HoldsLater(s, 11, 6, c.second);
    assert s[13] == s[11..][2] && s[16] == s[11..][5] && s[19] == s[11..][8];
    TwoReadsBack(c.year / 100, s, 0);
    TwoReadsBack(c.year % 100, s, 2);
    TwoReadsBack(c.month, s, 5);
    TwoReadsBack(c.day, s, 8);
    TwoReadsBack(c.hour, s, 11);
    TwoReadsBack(c.minute, s, 14);
    TwoReadsBack(c.second, s, 17);
  }

  lemma ParseText(c: Civil, s: string)
    requires Valid(c) && s == Text(c)
    ensures Parse(s) == Some(Seconds(c))
  {
    TextReads(c, s);
    FieldsRead(c, s);
  }

  lemma FieldsRead(c: Civil, s: string)
    requires Valid(c) && HasShape(s)
    requires TwoAt(s, 0) == c.year / 100 && TwoAt(s, 2) == c.year % 100
    requires TwoAt(s, 5) == c.month && TwoAt(s, 8) == c.day
    requires TwoAt(s, 11) == c.hour && TwoAt(s, 14) == c.minute && TwoAt(s, 17) == c.second
    ensures Parse(s) == Some(Seconds(c))
  {
    assert 100 * (c.year / 100) + c.year % 100 == c.year;
  }

  /** What is written to the database is read back as the instant it was, to the second. */
  lemma ParseFormat(seconds: int)
    requires FourDigitYear(seconds)
    ensures Parse(Format(seconds)) == Some(seconds)
  {
    ParseText(ToCivil(seconds), Format(seconds));
  }

  // ------------------------------------------------------------------------------------------
  // The two directions as a pair
  // ------------------------------------------------------------------------------------------

  datatype Codec = Codec(covers: int -> bool, format: int -> string, parse: string -> Option<int>)

  /** Texts are ordered like the instants they stand for, and read back as what was written. */
  ghost predicate Faithful(c: Codec) {
    && (forall a, b :: c.covers(a) && c.covers(b) ==> (TextLess(c.format(a), c.format(b)) <==> a < b))
    && forall a :: c.covers(a) ==> c.parse(c.format(a)) == Some(a)
  }

  function FormatAny(seconds: int): string { if FourDigitYear(seconds) then Format(seconds) else "" }

  function ParseAny(text: string): Option<int> {
    match Parse(text) case Some(t) => Some(t) case None => None
  }

  const RFC3339 := Codec(FourDigitYear, FormatAny, ParseAny)

  /** RFC 3339's text form is faithful for the instants of four-digit years. */
  lemma Rfc3339Faithful()
    ensures Faithful(RFC3339)
  {
    forall a, b | RFC3339.covers(a) && RFC3339.covers(b)
      ensures TextLess(RFC3339.format(a), RFC3339.format(b)) <==> a < b
    {
      FormatOrder(a, b);
    }
    forall a | RFC3339.covers(a) ensures RFC3339.parse(RFC3339.format(a)) == Some(a) {
      ParseFormat(a);
    }
  }
}
