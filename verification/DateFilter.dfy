/**
 The date filters of the summary report (`src/domain/reports.rs`), which compare
 strings, against the order of time.

 A string is a sequence of bytes, one character each.
 */
module DateFilter {
  import opened Wrappers
  import opened Calendar
  import opened Decimal
  import opened Sorting

  datatype Run = Run(projects: Option<seq<string>>, configurations: Option<seq<string>>, timestamp: string)

  datatype Filters = Filters(
    project: Option<string>,
    milestone: Option<string>,
    configuration: Option<string>,
    from: Option<string>,
    to: Option<string>)

  /// Dates of runs
  /// -------------

  function WrittenDate(d: Date): string {
    Padded(d.year, 4) + "-" + Padded(d.month, 2) + "-" + Padded(d.day, 2)
  }

  /** The date the calendar counts to at an instant. */
  function DateAt(seconds: u64): Date { Counted(seconds / 86_400) }

  function Iso8601(seconds: u64): string {
    var rem := seconds % 86_400;
    WrittenDate(DateAt(seconds)) + "T"
    + Padded(rem / 3_600, 2) + ":" + Padded(rem % 3_600 / 60, 2) + ":" + Padded(rem % 60, 2) + "Z"
  }

  /** The rendering, through the closed form. */
  method FormatIso8601(seconds: u64) returns (text: string)
    ensures text == Iso8601(seconds)
  {
    var days, rem := seconds / 86_400, seconds % 86_400;
    var hour, minute, second := rem / 3_600, rem % 3_600 / 60, rem % 60;
    var d := CivilFromDays(days);
    text := WrittenDate(d) + "T" + Padded(hour, 2) + ":" + Padded(minute, 2) + ":" + Padded(second, 2) + "Z";
  }

  function Iso8601Date(seconds: u64): string {
    IsoIsLong(seconds);
    Iso8601(seconds)[..10]
  }

  lemma IsoIsLong(seconds: u64)
    ensures |Iso8601(seconds)| >= 10
  {
    var d := DateAt(seconds);
    PaddedIsLong(d.year, 4);
    PaddedIsLong(d.month, 2);
    PaddedIsLong(d.day, 2);
  }

  lemma PaddedIsLong(n: nat, width: nat)
    ensures |Padded(n, width)| >= width
  {
    if |Digits(n)| < width {
      ZerosAreZeros(width - |Digits(n)|);
    }
  }

  /** A number as `u64::from_str` reads it: an optional plus, digits, and no overflow. */
  function ParseU64(s: string): Option<u64> {
    var digits := if s != [] && s[0] == '+' then s[1..] else s;
    if digits == [] || !AllDigits(digits) then None
    else if Value(digits) <= 0xFFFF_FFFF_FFFF_FFFF then Some(Value(digits))
    else None
  }

  /** What the server writes into a run, Unix seconds in decimal, reads back. */
  lemma StoredSecondsReadBack(seconds: u64)
    ensures ParseU64(Digits(seconds)) == Some(seconds)
  {
    ReadsBack(seconds);
    assert IsDigit(Digits(seconds)[0]);
  }

  /** Digits, with a plus sign or without, are the number they spell, as far as it fits; nothing else is a
      number. */
  lemma SecondsAreSpelled(s: string, digits: string, n: u64)
    requires digits != [] && AllDigits(digits)
    ensures s == digits || s == "+" + digits ==>
              ParseU64(s) == if Value(digits) < 0x1_0000_0000_0000_0000 then Some(Value(digits)) else None
    ensures ParseU64(s) == Some(n) ==> exists d: string :: d != [] && AllDigits(d) && (s == d || s == "+" + d)
  {
    hide Value;
    if s == "+" + digits {
      assert s[1..] == digits;
    }
    if s == digits {
      assert IsDigit(s[0]);
    }
    if ParseU64(s) == Some(n) {
      var d := if s[0] == '+' then s[1..] else s;
      assert s == [s[0]] + s[1..];
      assert d != [] && AllDigits(d) && (s == d || s == "+" + d);
    }
  }

  predicate Shaped(s: string) {
    |s| == 10 && s[4] == '-' && s[7] == '-' && AllDigits(s[..4]) && AllDigits(s[5..7]) && AllDigits(s[8..10])
  }

  function DatePrefix(value: string): Option<string> {
    if |value| >= 10 && Shaped(value[..10]) then Some(value[..10]) else None
  }

  /** A timestamp has the date it begins with, whatever follows, and no other. */
  lemma DatesLead(timestamp: string, date: string)
    ensures DatePrefix(timestamp) == Some(date) <==> date <= timestamp && Shaped(date)
  {
    if date <= timestamp && Shaped(date) {
      assert timestamp[..10] == date;
    }
  }

  function RunDate(timestamp: string): Option<string> {
    match ParseU64(timestamp)
    case Some(seconds) => Some(Iso8601Date(seconds))
    case None => DatePrefix(timestamp)
  }

  predicate Outside(date: string, from: Option<string>, to: Option<string>) {
    (from.Some? && Less(date, from.value)) || (to.Some? && Less(to.value, date))
  }

  predicate RunIsInScope(run: Run, home: string, runId: string, filters: Filters, milestoneRuns: Option<seq<string>>) {
    if filters.project.Some? && filters.project.value != home
       && !(run.projects.Some? && filters.project.value in run.projects.value) then false
    else if milestoneRuns.Some? && runId !in milestoneRuns.value then false
    else if filters.configuration.Some?
            && !(run.configurations.Some? && filters.configuration.value in run.configurations.value) then false
    else if filters.from.Some? || filters.to.Some? then
      match RunDate(run.timestamp)
      case None => false
      case Some(date) => !Outside(date, filters.from, filters.to)
    else true
  }

  /// String order is calendar order
  /// ------------------------------

  lemma {:induction false} LessOfConcatenation(a: string, b: string, s: string, t: string)
    requires |a| == |b|
    ensures Less(a + s, b + t) <==> Less(a, b) || (a == b && Less(s, t))
  {
    if a == [] {
      assert a + s == s && b + t == t;
    } else {
      assert (a + s)[1..] == a[1..] + s && (b + t)[1..] == b[1..] + t;
      assert a == [a[0]] + a[1..] && b == [b[0]] + b[1..];
      LessOfConcatenation(a[1..], b[1..], s, t);
      LessIsIrreflexive(a);
    }
  }

  /** Digit strings of one length compare as the numbers they write. */
  lemma {:induction false} DigitsCompareAsNumbers(a: string, b: string)
    requires |a| == |b| && AllDigits(a) && AllDigits(b)
    ensures Less(a, b) <==> Value(a) < Value(b)
    ensures a == b <==> Value(a) == Value(b)
  {
    if a != [] {
      var n := |a| - 1;
      var a', b' := a[..n], b[..n];
      assert a == a' + [a[n]] && b == b' + [b[n]];
      DigitsCompareAsNumbers(a', b');
      LessOfConcatenation(a', b', [a[n]], [b[n]]);
      assert Less([a[n]], [b[n]]) <==> a[n] < b[n];
      assert DigitValue(a[n]) < 10 && DigitValue(b[n]) < 10;
    }
  }

  function DateRead(s: string): Date
    requires Shaped(s)
  {
    Date(Value(s[..4]), Value(s[5..7]), Value(s[8..10]))
  }

  function Spelled(year: string, month: string, day: string): string { year + ("-" + (month + ("-" + day))) }

  lemma ShapedIsSpelled(s: string)
    requires Shaped(s)
    ensures s == Spelled(s[..4], s[5..7], s[8..10])
  {
    assert s[4..5] == "-" && s[7..8] == "-";
    assert s == s[..4] + (s[4..5] + (s[5..7] + (s[7..8] + s[8..10])));
  }

  lemma LessOfSpelled(y: string, m: string, d: string, y': string, m': string, d': string)
    requires |y| == |y'| && |m| == |m'|
    ensures Less(Spelled(y, m, d), Spelled(y', m', d'))
       <==> Less(y, y') || (y == y' && (Less(m, m') || (m == m' && Less(d, d'))))
  {
    LessOfConcatenation(y, y', "-" + (m + ("-" + d)), "-" + (m' + ("-" + d')));
    LessOfConcatenation("-", "-", m + ("-" + d), m' + ("-" + d'));
    LessOfConcatenation(m, m', "-" + d, "-" + d');
    LessOfConcatenation("-", "-", d, d');
    LessIsIrreflexive("-");
  }

  /** Dates written in the accepted shape compare as years, then months, then days. */
  lemma ShapedDatesCompareAsDates(a: string, b: string)
    requires Shaped(a) && Shaped(b)
    ensures Less(a, b) <==> Before(DateRead(a), DateRead(b))
  {
    hide Less;
    ShapedIsSpelled(a);
    ShapedIsSpelled(b);
    LessOfSpelled(a[..4], a[5..7], a[8..10], b[..4], b[5..7], b[8..10]);
    DigitsCompareAsNumbers(a[..4], b[..4]);
    DigitsCompareAsNumbers(a[5..7], b[5..7]);
    DigitsCompareAsNumbers(a[8..10], b[8..10]);
  }

  lemma {:induction false} ZerosDoNotCount(k: nat, s: string)
    requires AllDigits(s)
    ensures AllDigits(Zeros(k) + s) && Value(Zeros(k) + s) == Value(s)
  {
    ZerosAreZeros(k);
    var all := Zeros(k) + s;
    if s != [] {
      assert all[..|all| - 1] == Zeros(k) + s[..|s| - 1];
      ZerosDoNotCount(k, s[..|s| - 1]);
    } else if k > 0 {
      assert all == Zeros(k) && all[..k - 1] == Zeros(k - 1) by {
        ZerosAreZeros(k - 1);
      }
      ZerosDoNotCount(k - 1, []);
      assert Zeros(k - 1) + [] == Zeros(k - 1);
    }
  }

  lemma PaddedReadsBack(n: nat, width: nat)
    requires width > 0 && n < Pow10(width)
    ensures |Padded(n, width)| == width && AllDigits(Padded(n, width)) && Value(Padded(n, width)) == n
  {
    Length(n, width);
    ReadsBack(n);
    var zeros := width - |Digits(n)|;
    ZerosAreZeros(zeros);
    ZerosDoNotCount(zeros, Digits(n));
  }

  /** A date before year 10000 is written in the accepted shape and reads back. */
  lemma WrittenDateReadsBack(d: Date)
    requires Valid(d) && d.year <= 9999
    ensures Shaped(WrittenDate(d)) && DateRead(WrittenDate(d)) == d
  {
    assert Pow10(2) == 100 && Pow10(4) == 10_000;
    PaddedReadsBack(d.year, 4);
    PaddedReadsBack(d.month, 2);
    PaddedReadsBack(d.day, 2);
    var s := WrittenDate(d);
    assert s[..4] == Padded(d.year, 4) && s[5..7] == Padded(d.month, 2) && s[8..10] == Padded(d.day, 2);
  }

  /** Two digits that read as the number. */
  predicate TwoDigits(s: string, n: nat) { |s| == 2 && AllDigits(s) && Value(s) == n }

  /** The rendering is the date and the time of day: hours, minutes and seconds in two digits each, which
      count the seconds of the day. */
  lemma RenderingReadsBack(seconds: u64) returns (h: string, m: string, s: string, hour: nat, minute: nat, second: nat)
    ensures Iso8601(seconds) == WrittenDate(DateAt(seconds)) + "T" + h + ":" + m + ":" + s + "Z"
    ensures TwoDigits(h, hour) && TwoDigits(m, minute) && TwoDigits(s, second)
    ensures hour < 24 && minute < 60 && second < 60 && 3_600 * hour + 60 * minute + second == seconds % 86_400
  {
    hide WrittenDate, Counted, Padded, Value;
    var rem := seconds % 86_400;
    hour, minute, second := rem / 3_600, rem % 3_600 / 60, rem % 60;
    assert Pow10(2) == 100;
    h, m, s := Padded(hour, 2), Padded(minute, 2), Padded(second, 2);
    PaddedReadsBack(hour, 2);
    PaddedReadsBack(minute, 2);
    PaddedReadsBack(second, 2);
  }

  /// String order is time order
  /// --------------------------

  /** A calendar date written as a filter. */
  predicate RealDate(s: string) { Shaped(s) && Valid(DateRead(s)) }

  function DayOf(s: string): int
    requires Shaped(s)
  {
    DayNumber(DateRead(s))
  }

  function YearAt(seconds: u64): nat { DateAt(seconds).year }

  lemma DateBeforeYear10000(seconds: u64)
    requires YearAt(seconds) <= 9999
    ensures RealDate(Iso8601Date(seconds)) && DayOf(Iso8601Date(seconds)) == seconds / 86_400
    ensures DateRead(Iso8601Date(seconds)) == DateAt(seconds)
  {
    var d := DateAt(seconds);
    CountedIsNumbered(seconds / 86_400);
    WrittenDateReadsBack(d);
    assert Iso8601(seconds)[..10] == WrittenDate(d);
  }

  predicate Within(seconds: u64, from: string, to: string)
    requires Shaped(from) && Shaped(to)
  {
    86_400 * DayOf(from) <= seconds < 86_400 * (DayOf(to) + 1)
  }

  /** Before year 10000 a run recorded in Unix seconds passes the filters exactly when its instant
      lies on or between the two days. */
  lemma DateFiltersFollowTime(seconds: u64, from: string, to: string)
    requires YearAt(seconds) <= 9999 && RealDate(from) && RealDate(to)
    ensures !Outside(Iso8601Date(seconds), Some(from), Some(to)) <==> Within(seconds, from, to)
  {
    var date := Iso8601Date(seconds);
    DateBeforeYear10000(seconds);
    ShapedDatesCompareAsDates(date, from);
    ShapedDatesCompareAsDates(to, date);
    DayNumbersKeepOrder(DateRead(date), DateRead(from));
    DayNumbersKeepOrder(DateRead(to), DateRead(date));
  }

  /** A run recorded with an ISO-8601 timestamp passes exactly when its calendar day lies on or
      between the two days. */
  lemma IsoTimestampsFollowDays(timestamp: string, from: string, to: string)
    requires ParseU64(timestamp).None? && DatePrefix(timestamp).Some? && RealDate(DatePrefix(timestamp).value)
    requires RealDate(from) && RealDate(to)
    ensures RunDate(timestamp).Some?
    ensures !Outside(RunDate(timestamp).value, Some(from), Some(to))
       <==> DayOf(from) <= DayOf(DatePrefix(timestamp).value) <= DayOf(to)
  {
    var date := DatePrefix(timestamp).value;
    ShapedDatesCompareAsDates(date, from);
    ShapedDatesCompareAsDates(to, date);
    DayNumbersKeepOrder(DateRead(date), DateRead(from));
    DayNumbersKeepOrder(DateRead(to), DateRead(date));
  }

  /// From year 10000 on
  /// ------------------

  /** The filters give the right answer for every pair of real dates. */
  ghost predicate FiltersAgree(seconds: u64) {
    forall from, to :: RealDate(from) && RealDate(to) ==>
      (!Outside(Iso8601Date(seconds), Some(from), Some(to)) <==> Within(seconds, from, to))
  }

  function LeadingDigits(seconds: u64): (digits: string)
    requires YearAt(seconds) > 9999
    ensures |digits| == 4 && AllDigits(digits)
  {
    assert Pow10(4) == 10_000;
    Length(YearAt(seconds), 4);
    Digits(YearAt(seconds))[..4]
  }

  /** The ten characters kept of a longer date: four digits of the year, then another digit. */
  lemma DateFromYear10000(seconds: u64)
    requires YearAt(seconds) > 9999
    ensures var date := Iso8601Date(seconds);
            |date| == 10 && date[..4] == LeadingDigits(seconds) && AllDigits(date[..4]) && IsDigit(date[4])
  {
    hide Counted, WrittenDate, Digits, Value;
    var year := YearAt(seconds);
    assert Pow10(4) == 10_000;
    Length(year, 4);
    var text := Iso8601(seconds);
    assert Padded(year, 4) == Digits(year);
    WrittenDateStarts(DateAt(seconds));
    assert text[..5] == Digits(year)[..5];
    assert Iso8601Date(seconds)[..4] == text[..5][..4] && Iso8601Date(seconds)[4] == text[..5][4];
  }

  lemma WrittenDateStarts(d: Date)
    requires |Digits(d.year)| >= 5
    ensures |WrittenDate(d)| >= 5 && WrittenDate(d)[..5] == Digits(d.year)[..5]
  {
  }

  /** No day of a filter is as late as an instant from year 10000 on. */
  lemma FiltersEndBeforeYear10000(seconds: u64, to: string)
    requires YearAt(seconds) > 9999 && RealDate(to)
    ensures seconds >= 86_400 * (DayOf(to) + 1)
  {
    CountedIsNumbered(seconds / 86_400);
    var d := DateAt(seconds);
    ValueOfFour(to[..4]);
    DayNumbersKeepOrder(DateRead(to), d);
  }

  lemma ValueOfFour(s: string)
    requires |s| == 4 && AllDigits(s)
    ensures Value(s) == 1000 * DigitValue(s[0]) + 100 * DigitValue(s[1]) + 10 * DigitValue(s[2]) + DigitValue(s[3]) <= 9999
  {
    assert s[..3][..2] == s[..2] && s[..2][..1] == s[..1] && s[..1][..0] == [];
    assert Value(s[..1]) == DigitValue(s[0]);
    assert Value(s[..2]) == 10 * Value(s[..1]) + DigitValue(s[1]);
    assert Value(s[..3]) == 10 * Value(s[..2]) + DigitValue(s[2]);
  }

  /** The long date sorts after the filter exactly when its four digits are no smaller. */
  lemma LongDateAgainstFilter(date: string, to: string)
    requires |date| == 10 && AllDigits(date[..4]) && IsDigit(date[4]) && Shaped(to)
    ensures Less(to, date) <==> Value(to[..4]) <= Value(date[..4])
    ensures Less(date, to) <==> Value(date[..4]) < Value(to[..4])
  {
    assert date == date[..4] + date[4..] && to == to[..4] + to[4..];
    LessOfConcatenation(to[..4], date[..4], to[4..], date[4..]);
    LessOfConcatenation(date[..4], to[..4], date[4..], to[4..]);
    DigitsCompareAsNumbers(to[..4], date[..4]);
    DigitsCompareAsNumbers(date[..4], to[..4]);
    assert to[4..][0] == '-' < date[4..][0];
  }

  const FIRST := Date(0, 1, 1)
  const LAST := Date(9999, 12, 31)

  lemma FirstAndLastAreReal()
    ensures RealDate(WrittenDate(FIRST)) && Value(WrittenDate(FIRST)[..4]) == 0
    ensures RealDate(WrittenDate(LAST)) && Value(WrittenDate(LAST)[..4]) == 9999
  {
    hide WrittenDate;
    WrittenDateReadsBack(FIRST);
    WrittenDateReadsBack(LAST);
  }

  lemma NinesAreLargest(digits: string)
    requires |digits| == 4 && AllDigits(digits)
    ensures Value(digits) <= 9999 && (Value(digits) == 9999 <==> digits == "9999")
  {
    ValueOfFour(digits);
    ValueOfFour("9999");
    DigitsCompareAsNumbers(digits, "9999");
  }

  /** The filters follow time exactly up to year 9999, and beyond it for years written 9999...:
      elsewhere the kept ten characters sort among dates long past. */
  lemma FiltersAgreeExactly(seconds: u64)
    ensures FiltersAgree(seconds) <==> YearAt(seconds) <= 9999 || LeadingDigits(seconds) == "9999"
  {
    if YearAt(seconds) <= 9999 {
      forall from, to | RealDate(from) && RealDate(to)
        ensures !Outside(Iso8601Date(seconds), Some(from), Some(to)) <==> Within(seconds, from, to)
      {
        DateFiltersFollowTime(seconds, from, to);
      }
    } else {
      LongDatesAgreeOnlyAbove9999(seconds);
    }
  }

  lemma LongDatesAgreeOnlyAbove9999(seconds: u64)
    requires YearAt(seconds) > 9999
    ensures FiltersAgree(seconds) <==> LeadingDigits(seconds) == "9999"
  {
    hide Value, WrittenDate, Iso8601Date, Less;
    var date := Iso8601Date(seconds);
    DateFromYear10000(seconds);
    NinesAreLargest(date[..4]);
    forall from, to | RealDate(from) && RealDate(to)
      ensures !Within(seconds, from, to) && (LeadingDigits(seconds) == "9999" ==> Outside(date, Some(from), Some(to)))
    {
      FiltersEndBeforeYear10000(seconds, to);
      LongDateAgainstFilter(date, to);
      NinesAreLargest(to[..4]);
    }
    FirstAndLastAreReal();
    var first, last := WrittenDate(FIRST), WrittenDate(LAST);
    LongDateAgainstFilter(date, first);
    LongDateAgainstFilter(date, last);
    assert !Within(seconds, first, last);
    assert !Outside(date, Some(first), Some(last)) <==> LeadingDigits(seconds) != "9999";
  }

  /// The whole filter
  /// ----------------

  /** Every filter that is set, the dates aside, matches the run. */
  predicate MatchesAll(run: Run, home: string, runId: string, filters: Filters, milestoneRuns: Option<seq<string>>) {
    && (filters.project.Some? ==> filters.project.value == home
                                  || (run.projects.Some? && filters.project.value in run.projects.value))
    && (milestoneRuns.Some? ==> runId in milestoneRuns.value)
    && (filters.configuration.Some? ==>
          run.configurations.Some? && filters.configuration.value in run.configurations.value)
  }

  /** The timestamp has a date, and it is no earlier than the bound: as dates up to year 9999, and by
      the four leading digits of the year from then on. */
  predicate NotBefore(timestamp: string, from: string)
    requires Shaped(from)
  {
    match ParseU64(timestamp)
    case Some(seconds) =>
      if YearAt(seconds) <= 9999 then !Before(DateAt(seconds), DateRead(from))
      else Value(LeadingDigits(seconds)) >= DateRead(from).year
    case None =>
      DatePrefix(timestamp).Some? && !Before(DateRead(DatePrefix(timestamp).value), DateRead(from))
  }

  /** The timestamp has a date, and it is no later than the bound. */
  predicate NotAfter(timestamp: string, to: string)
    requires Shaped(to)
  {
    match ParseU64(timestamp)
    case Some(seconds) =>
      if YearAt(seconds) <= 9999 then !Before(DateRead(to), DateAt(seconds))
      else Value(LeadingDigits(seconds)) < DateRead(to).year
    case None =>
      DatePrefix(timestamp).Some? && !Before(DateRead(to), DateRead(DatePrefix(timestamp).value))
  }

  lemma BoundsCompareDates(timestamp: string, bound: string)
    requires Shaped(bound)
    ensures NotBefore(timestamp, bound) <==> RunDate(timestamp).Some? && !Less(RunDate(timestamp).value, bound)
    ensures NotAfter(timestamp, bound) <==> RunDate(timestamp).Some? && !Less(bound, RunDate(timestamp).value)
  {
    hide Less, Value, Iso8601Date, WrittenDate, LeadingDigits;
    match ParseU64(timestamp)
    case None =>
      if DatePrefix(timestamp).Some? {
        ShapedDatesCompareAsDates(DatePrefix(timestamp).value, bound);
        ShapedDatesCompareAsDates(bound, DatePrefix(timestamp).value);
      }
    case Some(seconds) =>
      var date := Iso8601Date(seconds);
      if YearAt(seconds) <= 9999 {
        DateBeforeYear10000(seconds);
        ShapedDatesCompareAsDates(date, bound);
        ShapedDatesCompareAsDates(bound, date);
      } else {
        DateFromYear10000(seconds);
        LongDateAgainstFilter(date, bound);
      }
  }

  /** A run is in scope exactly when every set filter matches, the home counting as its project, and it
      has a date within every bound that is set. The bounds are what a date filter is normalised to. */
  lemma RunInScopeMeans(run: Run, home: string, runId: string, filters: Filters, milestoneRuns: Option<seq<string>>)
    requires (filters.from.Some? ==> Shaped(filters.from.value)) && (filters.to.Some? ==> Shaped(filters.to.value))
    ensures RunIsInScope(run, home, runId, filters, milestoneRuns)
       <==> && MatchesAll(run, home, runId, filters, milestoneRuns)
            && (filters.from.Some? ==> NotBefore(run.timestamp, filters.from.value))
            && (filters.to.Some? ==> NotAfter(run.timestamp, filters.to.value))
  {
    if filters.from.Some? {
      BoundsCompareDates(run.timestamp, filters.from.value);
    }
    if filters.to.Some? {
      BoundsCompareDates(run.timestamp, filters.to.value);
    }
  }

  /** Against real dates the bounds are instants for a run recorded in Unix seconds before year 10000,
      and days for one recorded with an ISO-8601 timestamp of a real date. */
  lemma BoundsAreTimes(timestamp: string, bound: string)
    requires RealDate(bound)
    ensures match ParseU64(timestamp)
            case Some(seconds) =>
              YearAt(seconds) <= 9999 ==>
                && (NotBefore(timestamp, bound) <==> 86_400 * DayOf(bound) <= seconds)
                && (NotAfter(timestamp, bound) <==> seconds < 86_400 * (DayOf(bound) + 1))
            case None =>
              DatePrefix(timestamp).Some? && RealDate(DatePrefix(timestamp).value) ==>
                && (NotBefore(timestamp, bound) <==> DayOf(bound) <= DayOf(DatePrefix(timestamp).value))
                && (NotAfter(timestamp, bound) <==> DayOf(DatePrefix(timestamp).value) <= DayOf(bound))
  {
    hide Value, DayNumber, Counted;
    match ParseU64(timestamp)
    case Some(seconds) =>
      CountedIsNumbered(seconds / 86_400);
      DayNumbersKeepOrder(DateAt(seconds), DateRead(bound));
      DayNumbersKeepOrder(DateRead(bound), DateAt(seconds));
    case None =>
      if DatePrefix(timestamp).Some? && RealDate(DatePrefix(timestamp).value) {
        DayNumbersKeepOrder(DateRead(DatePrefix(timestamp).value), DateRead(bound));
        DayNumbersKeepOrder(DateRead(bound), DateRead(DatePrefix(timestamp).value));
      }
  }
}
