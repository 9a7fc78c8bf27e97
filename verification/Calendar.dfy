/**
 Calendar dates of Unix instants: the days-to-civil conversion of `src/domain/mod.rs`
 against the Gregorian calendar.
 */
module Calendar {
  import Accounts

  type u64 = Accounts.u64

  datatype Date = Date(year: nat, month: nat, day: nat)

  /// The Gregorian calendar
  /// ----------------------

  predicate IsLeap(year: int) { year % 4 == 0 && (year % 100 != 0 || year % 400 == 0) }

  function DaysInMonth(year: int, month: int): int {
    if month == 2 then (if IsLeap(year) then 29 else 28)
    else if month in {4, 6, 9, 11} then 30
    else 31
  }

  predicate Valid(d: Date) { 1 <= d.month <= 12 && 1 <= d.day <= DaysInMonth(d.year, d.month) }

  function NextDay(d: Date): Date {
    if d.day < DaysInMonth(d.year, d.month) then d.(day := d.day + 1)
    else if d.month < 12 then Date(d.year, d.month + 1, 1)
    else Date(d.year + 1, 1, 1)
  }

  const EPOCH := Date(1970, 1, 1)

  /** The date `days` days after the epoch, counted one day at a time. */
  function Counted(days: nat): Date {
    if days == 0 then EPOCH else NextDay(Counted(days - 1))
  }

  predicate Before(a: Date, b: Date) {
    a.year < b.year || (a.year == b.year && (a.month < b.month || (a.month == b.month && a.day < b.day)))
  }

  /// Numbering the days
  /// ------------------

  function DaysBeforeYear(year: nat): nat {
    if year == 0 then 0 else DaysBeforeYear(year - 1) + (if IsLeap(year - 1) then 366 else 365)
  }

  function DaysBeforeMonth(year: nat, month: nat): nat {
    if month <= 1 then 0 else DaysBeforeMonth(year, month - 1) + DaysInMonth(year, month - 1)
  }

  /** Days from the epoch to the date, negative before it: whole years, whole months, days. */
  function DayNumber(d: Date): int {
    DaysBeforeYear(d.year) + DaysBeforeMonth(d.year, d.month) + d.day - 1 - 719_528
  }

  /// Numbers in closed form
  /// ----------------------

  function YearOfEra(doe: nat): nat
    requires doe < 146_097
  {
    var a: u64 := doe - doe / 1_460;
    var b: u64 := a + doe / 36_524;
    var c: u64 := b - doe / 146_096;
    c / 365
  }

  const LAST_DAY := 0xFFFF_FFFF_FFFF_FFFF / 86_400

  function DayOfYear(doe: nat, yoe: nat): (doy: nat)
    requires yoe < 400 && YearStart(yoe) <= doe < YearStart(yoe + 1)
    ensures doy == doe - YearStart(yoe) && doy <= 365
  {
    YearLength(yoe);
    var whole: u64 := 365 * yoe;
    var withLeapDays: u64 := whole + yoe / 4;
    var before: u64 := withLeapDays - yoe / 100;
    var since: u64 := doe - before;
    since
  }

  /** The date `doy` days after 1 March of the year. */
  function DateOf(year: nat, doy: nat): Date
    requires doy <= 365 && year < 0xFFFF_FFFF_FFFF_FFFF
  {
    MonthIsRight(doy);
    var scaled: u64 := 5 * doy + 2;
    var mp: u64 := scaled / 153;
    var start: u64 := 153 * mp + 2;
    var since: u64 := doy - start / 5;
    var day: u64 := since + 1;
    var month: u64 := if mp < 10 then mp + 3 else mp - 9;
    var year': u64 := if month <= 2 then year + 1 else year;
    Date(year', month, day)
  }

  /** The count of days since the epoch, in years that begin in March. */
  function DaysFromCivil(d: Date): int {
    var year := if d.month <= 2 then d.year - 1 else d.year;
    var mp := if d.month <= 2 then d.month + 9 else d.month - 3;
    YearStart(year) + MonthStart(mp) + d.day - 1 - 719_468
  }

  /** Days from 1 March of year 0 to 1 March of the given year. */
  function YearStart(year: int): int { 365 * year + year / 4 - year / 100 + year / 400 }

  /** Days from 1 March to the first of the month `mp` months later. */
  function MonthStart(mp: int): int { (153 * mp + 2) / 5 }

  lemma YearOfEraIsRight(doe: nat)
    requires doe < 146_097
    ensures var yoe := YearOfEra(doe); yoe < 400 && YearStart(yoe) <= doe < YearStart(yoe + 1)
  {
    hide YearStart, YearOfEra;
    var c := if doe == 146_096 then 3 else doe / 36_524;
    var e := doe - 36_524 * c;
    var q, f := e / 1_461, e % 1_461;
    var r := if f == 1_460 then 3 else f / 365;
    var g := f - 365 * r;
    var y := 100 * c + 4 * q + r;
    assert e <= 36_524 && q <= 24 && 0 <= r <= 3 && 0 <= g <= 365 && (g == 365 ==> f == 1_460);
    InYear(c, q, r, g);
    QuotientIsTheYear(c, q, r, g);
  }

  lemma InYear(c: nat, q: nat, r: nat, g: nat)
    requires c <= 3 && q <= 24 && r <= 3 && g <= 365
    requires g == 365 ==> r == 3 && (q == 24 ==> c == 3)
    ensures var y, doe := 100 * c + 4 * q + r, 36_524 * c + 1_461 * q + 365 * r + g;
            y < 400 && YearStart(y) <= doe < YearStart(y + 1)
  {
    var y := 100 * c + 4 * q + r;
    assert y / 4 == 25 * c + q && y / 100 == c && y / 400 == 0;
    var next := y + 1;
    if r < 3 {
      assert next / 4 == 25 * c + q && next / 100 == c;
    } else {
      assert next / 4 == 25 * c + q + 1;
      assert next / 100 == if q == 24 then c + 1 else c;
    }
  }

  lemma QuotientIsTheYear(c: nat, q: nat, r: nat, g: nat)
    requires c <= 3 && q <= 24 && r <= 3 && g <= 365
    requires g == 365 ==> r == 3 && (q == 24 ==> c == 3)
    requires 1_461 * q + 365 * r + g == 36_524 ==> c == 3
    requires 36_524 * c + 1_461 * q + 365 * r + g < 146_097
    ensures YearOfEra(36_524 * c + 1_461 * q + 365 * r + g) == 100 * c + 4 * q + r
  {
    var doe := 36_524 * c + 1_461 * q + 365 * r + g;
    var y := 100 * c + 4 * q + r;
    var k := (24 * c + q + 365 * r + g) / 1_460;
    assert doe / 1_460 == 25 * c + q + k;
    assert k <= 1 && (k == 1 ==> g >= 1) && (g == 365 ==> k == 1);
    if doe == 146_096 {
      assert doe / 36_524 == 4 && doe / 146_096 == 1;
    } else {
      assert doe / 36_524 == c && doe / 146_096 == 0;
    }
    assert doe - doe / 1_460 + doe / 36_524 - doe / 146_096 == 365 * y + g - k;
  }

  lemma MonthIsRight(doy: nat)
    requires doy <= 365
    ensures var mp := (5 * doy + 2) / 153;
            0 <= mp <= 11 && MonthStart(mp) <= doy && (mp < 11 ==> doy < MonthStart(mp + 1))
  {
  }

  lemma Shift(a: int, k: int)
    ensures (a + 4 * k) / 4 == a / 4 + k && (a + 4 * k) % 4 == a % 4
    ensures (a + 100 * k) / 100 == a / 100 + k && (a + 100 * k) % 100 == a % 100
    ensures (a + 400 * k) / 400 == a / 400 + k && (a + 400 * k) % 400 == a % 400
  {
  }

  lemma EraRepeats(yoe: int, era: int)
    ensures YearStart(yoe + era * 400) == YearStart(yoe) + era * 146_097
    ensures IsLeap(yoe + 1 + era * 400) <==> IsLeap(yoe + 1)
  {
    var a, b := yoe + era * 400, yoe + 1 + era * 400;
    assert a / 4 == yoe / 4 + era * 100 && b % 4 == (yoe + 1) % 4 by {
      Shift(yoe, era * 100);
      Shift(yoe + 1, era * 100);
    }
    assert a / 100 == yoe / 100 + era * 4 && b % 100 == (yoe + 1) % 100 by {
      Shift(yoe, era * 4);
      Shift(yoe + 1, era * 4);
    }
    assert a / 400 == yoe / 400 + era && b % 400 == (yoe + 1) % 400 by {
      Shift(yoe, era);
      Shift(yoe + 1, era);
    }
  }

  /** A March year is as long as the leap day at its end makes it. */
  lemma YearLength(year: int)
    ensures YearStart(year + 1) - YearStart(year) == if IsLeap(year + 1) then 366 else 365
  {
    var next := year + 1;
    assert next / 4 - year / 4 == if next % 4 == 0 then 1 else 0;
    assert next / 100 - year / 100 == if next % 100 == 0 then 1 else 0;
    assert next / 400 - year / 400 == if next % 400 == 0 then 1 else 0;
    assert next % 400 == 0 ==> next % 100 == 0;
    assert next % 100 == 0 ==> next % 4 == 0;
  }

  lemma DateOfIsTheDay(year: nat, doy: nat)
    requires YearStart(year) + doy < YearStart(year + 1) && doy <= 365 && year < 0xFFFF_FFFF_FFFF_FFFF
    ensures Valid(DateOf(year, doy)) && DaysFromCivil(DateOf(year, doy)) == YearStart(year) + doy - 719_468
  {
    MonthIsRight(doy);
    YearLength(year);
    MonthLength((5 * doy + 2) / 153, DateOf(year, doy).year);
  }

  /** From March to January the months have the lengths the table of starts gives them. */
  lemma MonthLength(mp: int, year: int)
    requires 0 <= mp <= 11
    ensures mp < 11 ==> MonthStart(mp + 1) - MonthStart(mp) == DaysInMonth(year, if mp < 10 then mp + 3 else mp - 9)
    ensures mp == 11 ==> MonthStart(mp) == 337
  {
  }

  lemma ConvertsTheEpoch()
    ensures Valid(EPOCH) && DaysFromCivil(EPOCH) == 0
  {
    assert YearStart(1969) == 719_162;
    assert MonthStart(10) == 306;
  }

  /// A bijection with the calendar
  /// -----------------------------

  lemma {:induction false} YearsGrow(a: int, b: int)
    requires a <= b
    ensures YearStart(a) <= YearStart(b)
    decreases b - a
  {
    if a < b {
      YearsGrow(a, b - 1);
      YearLength(b - 1);
    }
  }

  /** Where a valid date lies within its March year. */
  lemma Within(d: Date)
    requires Valid(d)
    ensures var year := if d.month <= 2 then d.year - 1 else d.year;
            var mp := if d.month <= 2 then d.month + 9 else d.month - 3;
            && MonthStart(mp) <= DaysFromCivil(d) + 719_468 - YearStart(year)
            && DaysFromCivil(d) + 719_468 < YearStart(year + 1)
            && (mp < 11 ==> DaysFromCivil(d) + 719_468 - YearStart(year) < MonthStart(mp + 1))
  {
    var year := if d.month <= 2 then d.year - 1 else d.year;
    var mp := if d.month <= 2 then d.month + 9 else d.month - 3;
    YearLength(year);
    MonthLength(mp, d.year);
  }

  /** Dates in order have day counts in order. */
  lemma DaysKeepOrder(a: Date, b: Date)
    requires Valid(a) && Valid(b)
    ensures Before(a, b) <==> DaysFromCivil(a) < DaysFromCivil(b)
    ensures a == b <==> DaysFromCivil(a) == DaysFromCivil(b)
  {
    if Before(a, b) {
      EarlierHasFewerDays(a, b);
    } else if a != b {
      EarlierHasFewerDays(b, a);
    }
  }

  lemma EarlierHasFewerDays(a: Date, b: Date)
    requires Valid(a) && Valid(b) && Before(a, b)
    ensures DaysFromCivil(a) < DaysFromCivil(b)
  {
    var yearA := if a.month <= 2 then a.year - 1 else a.year;
    var yearB := if b.month <= 2 then b.year - 1 else b.year;
    if yearA < yearB {
      Within(a);
      Within(b);
      YearsGrow(yearA + 1, yearB);
    } else {
      EarlierInYear(a, b);
    }
  }

  lemma EarlierInYear(a: Date, b: Date)
    requires Valid(a) && Valid(b) && Before(a, b)
    requires (if a.month <= 2 then a.year - 1 else a.year) == (if b.month <= 2 then b.year - 1 else b.year)
    ensures DaysFromCivil(a) < DaysFromCivil(b)
  {
    var mpA := if a.month <= 2 then a.month + 9 else a.month - 3;
    var mpB := if b.month <= 2 then b.month + 9 else b.month - 3;
    MonthLength(mpA, a.year);
    assert mpA < mpB || (mpA == mpB && a.day < b.day);
    assert mpA < mpB ==> MonthStart(mpA + 1) <= MonthStart(mpB);
  }

  lemma NextDayCounts(d: Date)
    requires Valid(d)
    ensures Valid(NextDay(d)) && DaysFromCivil(NextDay(d)) == DaysFromCivil(d) + 1
  {
    hide YearStart;
    YearLength(if d.month <= 2 then d.year - 1 else d.year);
    MonthLength(if d.month <= 2 then d.month + 9 else d.month - 3, d.year);
  }

  lemma MonthsBefore(year: nat, month: nat)
    requires 1 <= month <= 12
    ensures DaysBeforeMonth(year, month)
         == if month <= 2 then 31 * (month - 1) else MonthStart(month - 3) + 31 + DaysInMonth(year, 2)
  {
    if month > 1 {
      MonthsBefore(year, month - 1);
      if month > 3 {
        MonthLength(month - 4, year);
      }
    }
  }

  lemma {:induction false} YearsBefore(year: nat)
    ensures DaysBeforeYear(year) + 31 + DaysInMonth(year, 2) == YearStart(year) + 60
  {
    if year > 0 {
      YearsBefore(year - 1);
      YearLength(year - 1);
    }
  }

  /** The two ways of numbering a date agree. */
  lemma NumbersAgree(d: Date)
    requires Valid(d)
    ensures DaysFromCivil(d) == DayNumber(d)
  {
    hide YearStart;
    YearsBefore(d.year);
    MonthsBefore(d.year, d.month);
    if d.month <= 2 {
      YearLength(d.year - 1);
    }
  }

  /** Dates in order have day numbers in order, and only equal dates share one. */
  lemma DayNumbersKeepOrder(a: Date, b: Date)
    requires Valid(a) && Valid(b)
    ensures Before(a, b) <==> DayNumber(a) < DayNumber(b)
    ensures a == b <==> DayNumber(a) == DayNumber(b)
  {
    hide DaysFromCivil, DayNumber;
    DaysKeepOrder(a, b);
    NumbersAgree(a);
    NumbersAgree(b);
  }

  /** Counting `days` days from the epoch arrives at a date numbered `days`. */
  lemma {:induction false} CountedIsNumbered(days: nat)
    ensures Valid(Counted(days)) && DayNumber(Counted(days)) == days && Counted(days).year >= 1970
  {
    hide DaysFromCivil, DayNumber;
    if days == 0 {
      ConvertsTheEpoch();
      NumbersAgree(EPOCH);
    } else {
      var before := Counted(days - 1);
      CountedIsNumbered(days - 1);
      NextDayCounts(before);
      NumbersAgree(before);
      NumbersAgree(NextDay(before));
    }
  }

  /** Every date from the epoch on is the one counted to by its number. */
  lemma DatesAreCounted(d: Date)
    requires Valid(d) && DayNumber(d) >= 0
    ensures Counted(DayNumber(d)) == d
  {
    CountedIsNumbered(DayNumber(d));
    DayNumbersKeepOrder(Counted(DayNumber(d)), d);
  }

  lemma NumberedSoCounted(d: Date, days: nat)
    requires Valid(d) && DaysFromCivil(d) == days
    ensures d == Counted(days)
  {
    hide DaysFromCivil, DayNumber;
    NumbersAgree(d);
    DatesAreCounted(d);
  }

  lemma YearInEra(yoe: int, era: int, start: int, end: int)
    requires start == YearStart(yoe) && end == YearStart(yoe + 1)
    ensures YearStart(yoe + era * 400) == start + era * 146_097
    ensures YearStart(yoe + era * 400 + 1) == end + era * 146_097
  {
    hide YearStart;
    EraRepeats(yoe, era);
    EraRepeats(yoe + 1, era);
    assert yoe + era * 400 + 1 == (yoe + 1) + era * 400;
  }

  /// The conversion
  /// --------------

  /** The closed form counts days: for every day of a 64-bit clock it arrives where counting from the
      epoch does. Every operation here, in `YearOfEra`, `DayOfYear` and `DateOf` yields a 64-bit value, so
      none wraps. */
  method CivilFromDays(days: nat) returns (d: Date)
    requires days <= LAST_DAY
    ensures d == Counted(days)
  {
    hide YearStart, YearOfEra, DayOfYear, DateOf, DaysFromCivil, Valid, Counted;
    var z: u64 := days + 719_468;
    var era: u64 := z / 146_097;
    var eraDays: u64 := era * 146_097;
    var doe: u64 := z - eraDays;
    YearOfEraIsRight(doe);
    var yoe: u64 := YearOfEra(doe);
    var eraYears: u64 := era * 400;
    var year: u64 := yoe + eraYears;
    var doy: u64 := DayOfYear(doe, yoe);
    YearInEra(yoe, era, YearStart(yoe), YearStart(yoe + 1));
    d := DateOf(year, doy);
    DateOfIsTheDay(year, doy);
    NumberedSoCounted(d, days);
  }
}
